/**
  ASYNCIO as a concurrent protocol (src/base/system.cpp): any number of client threads and one
  writer thread share the ring, a mutex, a counting semaphore, a `finish` state and a reference
  count of two. Every lock, unlock, signal, wait, drain, file write and free is a step of its own,
  and the steps of all threads interleave arbitrarily.

  Client 0 is the owner: it alone waits (at most once) and frees (once, when no other call is in
  progress), as the destructor of CLoggerAsync does. Every client may write and close at any time
  before that.
  */
module AsyncProtocol {
  import opened Bytes
  import opened AsyncRing
  import opened Common

  datatype Finish = Running | Close | Exit

  datatype Holder = Nobody | Writer | Client(id: nat)

  /** The pieces that one caller queues between aio_lock and aio_unlock. */
  type Call = seq<seq<byte>>

  datatype Op =
    | Write(call: Call)   // aio_lock, aio_write_unlocked for each piece, aio_unlock
    | CloseOp             // aio_close
    | WaitOp              // aio_wait
    | FreeOp              // aio_free

  datatype ClientPc =
    | Idle
    | WantLock(op: Op)
    | Holding(op: Op, written: nat)  // owns the lock; for Write: how many pieces are queued
    | Changed(op: Op)                // owns the lock; `finish` (and the thread handle) updated
    | Signalling(op: Op)             // has released the lock, sphore_signal is next
    | Joining                        // in thread_wait
    | Dropping(last: bool)           // owns the lock; reference count decremented
    | Dropped(last: bool)            // has released the lock
    | Gone(last: bool)

  datatype WriterPc =
    | WWantLock
    | WTop                     // owns the lock, at the head of the loop
    | WSleep                   // has released the lock, at sphore_wait
    | WDrained                 // owns the lock, data in the local buffer
    | WWriting                 // has released the lock, at io_write
    | WClosed                  // owns the lock, file dealt with, about to drop its reference
    | WDropping(last: bool)    // owns the lock; reference count decremented
    | WDropped(last: bool)     // has released the lock
    | WExited(last: bool)

  datatype State = State(
    holder: Holder,
    ring: seq<byte>,
    finish: Finish,
    refcount: int,
    sem: nat,
    hasThread: bool,           // aio->thread is not null
    live: bool,                // the structure is allocated
    writer: WriterPc,
    local: seq<byte>,          // the writer's local_buffer
    clients: seq<ClientPc>,
    waited: bool,              // the owner has called aio_wait
    freeing: bool,             // the owner has called aio_free
    // observations; no step reads them
    file: seq<byte>,
    calls: seq<Call>,          // finished calls, in the order of their critical sections
    mark: Option<nat>,         // |calls| when `finish` was first set
    exitCalls: nat,            // |calls| when the writer left its loop
    exitFinish: Finish,        // `finish` when the writer left its loop
    frees: nat,
    closes: nat,
    touchedFreed: bool         // some step accessed the structure after it was released
  )

  datatype Action = WriterStep | Start(client: nat, op: Op) | ClientStep(client: nat)

  // ---------------------------------------------------------------- the steps

  function Init(n: nat): State
    requires n > 0
  {
    State(Nobody, [], Running, 2, 0, true, true, WWantLock, [], seq(n, _ => Idle), false, false,
          [], [], None, 0, Running, 0, 0, false)
  }

  /** Records an access to the structure. */
  function Touch(s: State): State {
    s.(touchedFreed := s.touchedFreed || !s.live)
  }

  function WriterNext(s: State): (r: Option<State>)
  {
    match s.writer
    case WWantLock =>
      if s.holder == Nobody then Some(Touch(s).(holder := Writer, writer := WTop)) else None
    case WTop =>
      if s.ring != [] then
        var n := DrainLen(|s.ring|);
        Some(Touch(s).(local := s.ring[..n], ring := s.ring[n..], writer := WDrained))
      else if s.finish == Running then
        Some(Touch(s).(holder := Nobody, writer := WSleep))
      else
        Some(Touch(s).(closes := s.closes + (if s.finish == Close then 1 else 0),
                       exitCalls := |s.calls|, exitFinish := s.finish, writer := WClosed))
    case WSleep =>
      if s.sem > 0 then Some(Touch(s).(sem := s.sem - 1, writer := WWantLock)) else None
    case WDrained =>
      Some(Touch(s).(holder := Nobody, writer := WWriting))
    case WWriting =>
      Some(Touch(s).(file := s.file + s.local, local := [], writer := WWantLock))
    case WClosed =>
      Some(Touch(s).(refcount := s.refcount - 1, writer := WDropping(s.refcount - 1 == 0)))
    case WDropping(last) =>
      Some(Touch(s).(holder := Nobody, writer := WDropped(last)))
    case WDropped(last) =>
      if last then
        Some(Touch(s).(live := false, frees := s.frees + 1, writer := WExited(last)))
      else
        Some(s.(writer := WExited(last)))
    case WExited(_) => None
  }

  function SetClient(s: State, c: nat, pc: ClientPc): State
    requires c < |s.clients|
  {
    s.(clients := s.clients[c := pc])
  }

  /** `finish` is set for the first time when it leaves Running. */
  function SetFinish(s: State, f: Finish): State {
    s.(finish := f, mark := if s.mark.None? then Some(|s.calls|) else s.mark)
  }

  /** One step inside the critical section, before the state that other threads see has changed completely. */
  function InsideNext(s: State, c: nat, op: Op, written: nat): (r: Option<State>)
    requires c < |s.clients|
  {
    match op
    case Write(call) =>
      if written < |call| then
        // Beyond this limit the original loops forever or overruns its buffer (AsyncRing.GrowthIsExact).
        if Fits(|s.ring|, |call[written]|) then
          Some(SetClient(Touch(s).(ring := s.ring + call[written]), c, Holding(op, written + 1)))
        else None
      else
        Some(SetClient(Touch(s).(holder := Nobody, calls := s.calls + [call]), c, Signalling(op)))
    case CloseOp =>
      Some(SetClient(SetFinish(Touch(s), Close), c, Changed(op)))
    case WaitOp =>
      var t := if s.finish == Running then SetFinish(Touch(s), Exit) else Touch(s);
      Some(SetClient(t.(hasThread := false), c, Changed(op)))
    case FreeOp =>
      Some(SetClient(Touch(s).(hasThread := false, refcount := s.refcount - 1), c, Dropping(s.refcount - 1 == 0)))
  }

  function ClientNext(s: State, c: nat): (r: Option<State>)
    requires c < |s.clients|
  {
    match s.clients[c]
    case Idle => None
    case WantLock(op) =>
      if s.holder == Nobody then Some(SetClient(Touch(s).(holder := Client(c)), c, Holding(op, 0))) else None
    case Holding(op, written) => InsideNext(s, c, op, written)
    case Changed(op) =>
      Some(SetClient(Touch(s).(holder := Nobody), c, Signalling(op)))
    case Signalling(op) =>
      Some(SetClient(Touch(s).(sem := s.sem + 1), c, if op.WaitOp? then Joining else Idle))
    case Joining =>
      if s.writer.WExited? then Some(SetClient(s, c, Idle)) else None
    case Dropping(last) =>
      Some(SetClient(Touch(s).(holder := Nobody), c, Dropped(last)))
    case Dropped(last) =>
      if last then
        Some(SetClient(Touch(s).(live := false, frees := s.frees + 1), c, Gone(last)))
      else
        Some(SetClient(s, c, Gone(last)))
    case Gone(_) => None
  }

  /** The rules of use: waiting and freeing once, by the owner, and no new or running call once it frees. */
  predicate MayStart(s: State, c: nat, op: Op)
    requires c < |s.clients|
  {
    && s.clients[c] == Idle
    && !s.freeing
    && (op.WaitOp? ==> c == 0 && !s.waited)
    && (op.FreeOp? ==> c == 0 && forall d :: 0 <= d < |s.clients| ==> s.clients[d] == Idle)
  }

  function StartNext(s: State, c: nat, op: Op): (r: Option<State>)
    requires c < |s.clients|
  {
    if MayStart(s, c, op) then
      Some(SetClient(s, c, WantLock(op)).(waited := s.waited || op.WaitOp?, freeing := op.FreeOp?))
    else None
  }

  function Do(s: State, a: Action): (r: Option<State>)
  {
    match a
    case WriterStep => WriterNext(s)
    case Start(c, op) => if c < |s.clients| then StartNext(s, c, op) else None
    case ClientStep(c) => if c < |s.clients| then ClientNext(s, c) else None
  }

  /** The state after a schedule, or None when some action of it is not possible. */
  function Exec(s: State, schedule: seq<Action>): (r: Option<State>)
    decreases |schedule|
  {
    if schedule == [] then Some(s)
    else
      var next := Do(s, schedule[0]);
      if next.None? then None else Exec(next.value, schedule[1..])
  }

  ghost predicate Reachable(s: State) {
    exists n: nat, schedule :: n > 0 && Exec(Init(n), schedule) == Some(s)
  }

  // ---------------------------------------------------------------- what is observed

  /** The bytes of finished calls. */
  function CallBytes(calls: seq<Call>): (r: seq<byte>)
  {
    if calls == [] then [] else CallBytes(calls[..|calls| - 1]) + Flatten(calls[|calls| - 1])
  }

  /** What the holder of the lock has queued of its call so far. */
  function Partial(s: State): (r: seq<byte>)
  {
    if s.holder.Client? && s.holder.id < |s.clients| && s.clients[s.holder.id].Holding?
       && s.clients[s.holder.id].op.Write? && s.clients[s.holder.id].written <= |s.clients[s.holder.id].op.call| then
      Flatten(s.clients[s.holder.id].op.call[..s.clients[s.holder.id].written])
    else []
  }

  /** The client owns the lock. */
  predicate Inside(pc: ClientPc) {
    pc.Holding? || pc.Changed? || pc.Dropping?
  }

  predicate WriterInside(pc: WriterPc) {
    pc.WTop? || pc.WDrained? || pc.WClosed? || pc.WDropping?
  }

  /** The client has changed what the writer waits for and has yet to signal. */
  predicate OwesSignal(pc: ClientPc) {
    (pc.Holding? && pc.written > 0) || pc.Changed? || pc.Signalling?
  }

  predicate WriterDropped(pc: WriterPc) {
    pc.WDropping? || pc.WDropped? || pc.WExited?
  }

  predicate WriterLeft(pc: WriterPc) {
    pc.WClosed? || WriterDropped(pc)
  }

  predicate OwnerDropped(pc: ClientPc) {
    pc.Dropping? || pc.Dropped? || pc.Gone?
  }

  predicate WriterLast(pc: WriterPc) {
    WriterDropped(pc) && pc.last
  }

  predicate OwnerLast(pc: ClientPc) {
    OwnerDropped(pc) && pc.last
  }

  // ---------------------------------------------------------------- the invariant

  /** The lock is owned by exactly the thread whose program counter says so. */
  ghost predicate LockInv(s: State) {
    && (s.holder == Writer <==> WriterInside(s.writer))
    && (forall c :: 0 <= c < |s.clients| ==> (s.holder == Client(c) <==> Inside(s.clients[c])))
    && (s.holder.Client? ==> s.holder.id < |s.clients|)
  }

  /** Nothing is lost, duplicated or reordered. */
  ghost predicate DataInv(s: State) {
    && s.file + s.local + s.ring == CallBytes(s.calls) + Partial(s)
    && (s.local != [] ==> s.writer.WDrained? || s.writer.WWriting?)
    && (forall c :: 0 <= c < |s.clients| && s.clients[c].Holding? ==>
          if s.clients[c].op.Write? then s.clients[c].written <= |s.clients[c].op.call| else s.clients[c].written == 0)
  }

  /** Only the owner waits and frees, and frees alone. */
  ghost predicate UseInv(s: State) {
    && |s.clients| > 0
    && (s.freeing ==> forall c :: 0 < c < |s.clients| ==> s.clients[c] == Idle)
    && (forall c :: 0 < c < |s.clients| ==>
          && !OwnerDropped(s.clients[c]) && s.clients[c] != Joining
          && !OpIs(s.clients[c], FreeOp) && !OpIs(s.clients[c], WaitOp))
    && (forall c :: 0 <= c < |s.clients| && (s.clients[c].Changed? || s.clients[c].Signalling?) ==>
          !s.clients[c].op.FreeOp?)
    && (s.freeing <==> OpIs(s.clients[0], FreeOp) || OwnerDropped(s.clients[0]))
  }

  predicate OpIs(pc: ClientPc, op: Op) {
    (pc.WantLock? || pc.Holding? || pc.Changed? || pc.Signalling?) && pc.op == op
  }

  /** The reference count counts the holders that have not dropped theirs. */
  ghost predicate RefInv(s: State)
    requires |s.clients| > 0
  {
    && s.refcount == (if WriterDropped(s.writer) then 0 else 1) + (if OwnerDropped(s.clients[0]) then 0 else 1)
    && (WriterLast(s.writer) || OwnerLast(s.clients[0]) <==> WriterDropped(s.writer) && OwnerDropped(s.clients[0]))
    && !(WriterLast(s.writer) && OwnerLast(s.clients[0]))
    && (s.writer.WDropping? && OwnerDropped(s.clients[0]) ==> s.writer.last)
    && (s.clients[0].Dropping? && WriterDropped(s.writer) ==> s.clients[0].last)
    && (s.live <==> s.writer != WExited(true) && s.clients[0] != Gone(true))
    && s.frees == (if s.live then 0 else 1)
    && !s.touchedFreed
  }

  /** A sleeping writer with something to do will be woken. */
  ghost predicate WakeInv(s: State) {
    s.writer.WSleep? && (s.ring != [] || s.finish != Running) ==>
      s.sem > 0 || exists c :: 0 <= c < |s.clients| && OwesSignal(s.clients[c])
  }

  /** How far the file is complete once the writer has left its loop. */
  ghost predicate ExitInv(s: State) {
    && (s.finish != Running <==> s.mark.Some?)
    && (s.mark.Some? ==> s.mark.value <= |s.calls|)
    && (WriterLeft(s.writer) ==>
          && s.mark.Some? && s.mark.value <= s.exitCalls <= |s.calls|
          && s.file == CallBytes(s.calls[..s.exitCalls]) && s.local == [])
    && s.closes == (if WriterLeft(s.writer) && s.exitFinish == Close then 1 else 0)
    && (WriterLeft(s.writer) ==> s.exitFinish != Running && (s.finish == Exit ==> s.exitFinish == Exit))
    && (s.writer.WClosed? ==> s.exitCalls == |s.calls|)
  }

  /** aio_wait has set `finish`, and returns only after the writer thread has ended. */
  ghost predicate WaitInv(s: State)
    requires |s.clients| > 0
  {
    && (!s.waited ==> s.finish != Exit && s.exitFinish != Exit)
    && (s.waited && !OpIs(s.clients[0], WaitOp) && s.clients[0] != Joining ==> s.writer.WExited?)
    && (OpIs(s.clients[0], WaitOp) || s.clients[0] == Joining ==> s.waited)
    && (s.clients[0] == Changed(WaitOp) || s.clients[0] == Signalling(WaitOp) || s.clients[0] == Joining ==>
          s.finish != Running)
    && (!OwnerDropped(s.clients[0]) ==>
          (!s.waited || s.clients[0] == WantLock(WaitOp) || s.clients[0] == Holding(WaitOp, 0) ==> s.hasThread))
  }

  /** Where the threads are, and what they own. */
  ghost predicate ControlInv(s: State) {
    UseInv(s) && LockInv(s) && RefInv(s) && WakeInv(s) && WaitInv(s)
  }

  ghost predicate Inv(s: State) {
    ControlInv(s) && DataInv(s) && ExitInv(s)
  }

  // ---------------------------------------------------------------- preservation

  lemma InitInv(n: nat)
    requires n > 0
    ensures Inv(Init(n))
  {
  }

  lemma WriterLocks(s: State)
    requires Inv(s) && s.writer.WWantLock? && s.holder == Nobody
    ensures Inv(WriterNext(s).value)
  {
    assert Partial(WriterNext(s).value) == Partial(s);
  }

  lemma WriterDrains(s: State)
    requires Inv(s) && s.writer.WTop? && s.ring != []
    ensures Inv(WriterNext(s).value)
  {
    var t := WriterNext(s).value;
    assert Partial(t) == Partial(s);
    assert s.ring == t.local + t.ring;
    assert s.file + s.local + s.ring == t.file + t.local + t.ring;
  }

  lemma WriterGoesToSleep(s: State)
    requires Inv(s) && s.writer.WTop? && s.ring == [] && s.finish == Running
    ensures Inv(WriterNext(s).value)
  {
    assert Partial(WriterNext(s).value) == Partial(s);
  }

  /** Leaving the loop: everything queued so far is in the file. */
  lemma WriterLeaves(s: State)
    requires Inv(s) && s.writer.WTop? && s.ring == [] && s.finish != Running
    ensures Inv(WriterNext(s).value)
    ensures s.file == CallBytes(s.calls)
  {
    assert Partial(WriterNext(s).value) == Partial(s) == [];
    assert s.calls[..|s.calls|] == s.calls;
    assert s.file == s.file + s.local + s.ring;
    assert CallBytes(s.calls) == CallBytes(s.calls) + [];
  }

  lemma WriterWakes(s: State)
    requires Inv(s) && s.writer.WSleep? && s.sem > 0
    ensures Inv(WriterNext(s).value)
  {
    assert Partial(WriterNext(s).value) == Partial(s);
  }

  lemma WriterUnlocksDrained(s: State)
    requires Inv(s) && s.writer.WDrained?
    ensures Inv(WriterNext(s).value)
  {
    assert Partial(WriterNext(s).value) == Partial(s);
  }

  lemma WriterWrites(s: State)
    requires Inv(s) && s.writer.WWriting?
    ensures Inv(WriterNext(s).value)
  {
    var t := WriterNext(s).value;
    assert Partial(t) == Partial(s);
    assert s.file + s.local + s.ring == t.file + t.local + t.ring;
  }

  lemma WriterDrops(s: State)
    requires Inv(s) && s.writer.WClosed?
    ensures Inv(WriterNext(s).value)
  {
    assert Partial(WriterNext(s).value) == Partial(s);
  }

  lemma WriterUnlocksLast(s: State)
    requires Inv(s) && s.writer.WDropping?
    ensures Inv(WriterNext(s).value)
  {
    assert Partial(WriterNext(s).value) == Partial(s);
  }

  lemma WriterEndsFirst(s: State)
    requires Inv(s) && s.writer == WDropped(false)
    ensures Inv(WriterNext(s).value)
  {
    assert Partial(WriterNext(s).value) == Partial(s);
  }

  lemma WriterEndsLast(s: State)
    requires Inv(s) && s.writer == WDropped(true)
    ensures Inv(WriterNext(s).value)
  {
    assert s.live;
    assert Partial(WriterNext(s).value) == Partial(s);
  }

  lemma WriterStepKeepsInv(s: State)
    requires Inv(s) && WriterNext(s).Some?
    ensures Inv(WriterNext(s).value)
  {
    match s.writer {
      case WWantLock => WriterLocks(s);
      case WTop =>
        if s.ring != [] {
          WriterDrains(s);
        } else if s.finish == Running {
          WriterGoesToSleep(s);
        } else {
          WriterLeaves(s);
        }
      case WSleep => WriterWakes(s);
      case WDrained => WriterUnlocksDrained(s);
      case WWriting => WriterWrites(s);
      case WClosed => WriterDrops(s);
      case WDropping(_) => WriterUnlocksLast(s);
      case WDropped(last) =>
        if last {
          WriterEndsLast(s);
        } else {
          WriterEndsFirst(s);
        }
    }
  }

  lemma CallBytesSnoc(calls: seq<Call>, call: Call)
    ensures CallBytes(calls + [call]) == CallBytes(calls) + Flatten(call)
  {
    assert (calls + [call])[..|calls|] == calls;
  }

  lemma ClientStarts(s: State, c: nat, op: Op)
    requires Inv(s) && c < |s.clients| && MayStart(s, c, op)
    ensures Inv(StartNext(s, c, op).value)
  {
    assert Partial(StartNext(s, c, op).value) == Partial(s);
    ClientStartsControl(s, c, op);
  }

  lemma ClientStartsControl(s: State, c: nat, op: Op)
    requires ControlInv(s) && c < |s.clients| && MayStart(s, c, op)
    ensures ControlInv(StartNext(s, c, op).value)
  {
  }

  lemma ClientLocks(s: State, c: nat)
    requires Inv(s) && c < |s.clients| && s.clients[c].WantLock? && s.holder == Nobody
    ensures Inv(ClientNext(s, c).value)
  {
    assert Partial(ClientNext(s, c).value) == Partial(s) == [];
    ClientLocksControl(s, c);
  }

  lemma ClientLocksControl(s: State, c: nat)
    requires ControlInv(s) && c < |s.clients| && s.clients[c].WantLock? && s.holder == Nobody
    ensures ControlInv(ClientNext(s, c).value)
  {
  }

  lemma QueuedData(s: State, c: nat)
    requires LockInv(s) && DataInv(s) && c < |s.clients| && s.clients[c].Holding? && s.clients[c].op.Write?
    requires s.clients[c].written < |s.clients[c].op.call| && ClientNext(s, c).Some?
    ensures DataInv(ClientNext(s, c).value)
  {
    var t := ClientNext(s, c).value;
    var call, w := s.clients[c].op.call, s.clients[c].written;
    assert s.holder == Client(c);
    FlattenNext(call, w);
    assert Partial(t) == Partial(s) + call[w];
    AppendBoth(s.file + s.local, s.ring, CallBytes(s.calls), Partial(s), call[w]);
  }

  lemma AppendBoth(file: seq<byte>, ring: seq<byte>, calls: seq<byte>, partial: seq<byte>, piece: seq<byte>)
    requires file + ring == calls + partial
    ensures file + (ring + piece) == calls + (partial + piece)
  {
    assert file + (ring + piece) == (file + ring) + piece;
    assert calls + (partial + piece) == (calls + partial) + piece;
  }

  /** aio_write_unlocked. */
  lemma ClientQueues(s: State, c: nat)
    requires Inv(s) && c < |s.clients| && s.clients[c].Holding? && s.clients[c].op.Write?
    requires s.clients[c].written < |s.clients[c].op.call| && ClientNext(s, c).Some?
    ensures Inv(ClientNext(s, c).value)
  {
    var t := ClientNext(s, c).value;
    assert s.holder == Client(c);
    QueuedData(s, c);
    assert OwesSignal(t.clients[c]);
  }

  lemma FinishedStream(stream: seq<byte>, calls: seq<Call>, call: Call)
    requires stream == CallBytes(calls) + Flatten(call)
    ensures stream == CallBytes(calls + [call]) + []
  {
    CallBytesSnoc(calls, call);
  }

  lemma FinishedCallData(s: State, c: nat)
    requires LockInv(s) && DataInv(s) && c < |s.clients| && s.clients[c].Holding? && s.clients[c].op.Write?
    requires s.clients[c].written == |s.clients[c].op.call|
    ensures DataInv(ClientNext(s, c).value)
  {
    var t := ClientNext(s, c).value;
    var call := s.clients[c].op.call;
    assert s.holder == Client(c);
    assert call[..|call|] == call;
    assert Partial(s) == Flatten(call) && Partial(t) == [];
    FinishedStream(s.file + s.local + s.ring, s.calls, call);
    assert t.calls == s.calls + [call];
  }

  /** aio_unlock after the last piece. */
  lemma ClientFinishesCall(s: State, c: nat)
    requires Inv(s) && c < |s.clients| && s.clients[c].Holding? && s.clients[c].op.Write?
    requires s.clients[c].written == |s.clients[c].op.call|
    ensures Inv(ClientNext(s, c).value)
  {
    var t := ClientNext(s, c).value;
    FinishedCallData(s, c);
    FinishedCallExit(s, c);
    FinishedCallControl(s, c);
  }

  lemma FinishedCallControl(s: State, c: nat)
    requires ControlInv(s) && c < |s.clients| && s.clients[c].Holding? && s.clients[c].op.Write?
    requires s.clients[c].written == |s.clients[c].op.call|
    ensures ControlInv(ClientNext(s, c).value)
  {
    assert s.holder == Client(c);
    assert OwesSignal(ClientNext(s, c).value.clients[c]);
  }

  lemma FinishedCallExit(s: State, c: nat)
    requires LockInv(s) && ExitInv(s) && c < |s.clients| && s.clients[c].Holding? && s.clients[c].op.Write?
    requires s.clients[c].written == |s.clients[c].op.call|
    ensures ExitInv(ClientNext(s, c).value)
  {
    assert s.holder == Client(c) && !s.writer.WClosed?;
    assert WriterLeft(s.writer) ==> ClientNext(s, c).value.calls[..s.exitCalls] == s.calls[..s.exitCalls];
  }

  lemma CloseSets(s: State, c: nat)
    requires Inv(s) && c < |s.clients| && s.clients[c].Holding? && s.clients[c].op.CloseOp?
    ensures Inv(ClientNext(s, c).value)
  {
    var t := ClientNext(s, c).value;
    assert s.holder == Client(c);
    assert Partial(t) == Partial(s) == [];
    assert OwesSignal(t.clients[c]);
  }

  lemma WaitSets(s: State, c: nat)
    requires Inv(s) && c < |s.clients| && s.clients[c].Holding? && s.clients[c].op.WaitOp?
    ensures Inv(ClientNext(s, c).value)
  {
    var t := ClientNext(s, c).value;
    assert s.holder == Client(c);
    assert OpIs(s.clients[c], WaitOp);
    assert c == 0;
    assert Partial(t) == Partial(s) == [];
    assert OwesSignal(t.clients[c]);
  }

  lemma FreeDrops(s: State, c: nat)
    requires Inv(s) && c < |s.clients| && s.clients[c].Holding? && s.clients[c].op.FreeOp?
    ensures Inv(ClientNext(s, c).value)
  {
    var t := ClientNext(s, c).value;
    assert s.holder == Client(c);
    assert OpIs(s.clients[c], FreeOp);
    assert c == 0;
    assert Partial(t) == Partial(s) == [];
  }

  lemma ClientUnlocks(s: State, c: nat)
    requires Inv(s) && c < |s.clients| && s.clients[c].Changed?
    ensures Inv(ClientNext(s, c).value)
  {
    var t := ClientNext(s, c).value;
    assert s.holder == Client(c);
    assert Partial(t) == Partial(s) == [];
    assert OwesSignal(t.clients[c]);
  }

  lemma ClientSignals(s: State, c: nat)
    requires Inv(s) && c < |s.clients| && s.clients[c].Signalling? && !s.clients[c].op.WaitOp?
    ensures Inv(ClientNext(s, c).value)
  {
    var t := ClientNext(s, c).value;
    assert !s.clients[c].op.FreeOp? && !(s.freeing && c != 0);
    assert s.live && t == s.(sem := s.sem + 1, clients := s.clients[c := Idle]);
    assert LockInv(t);
    assert Partial(t) == Partial(s);
    ClientSignalsControl(s, c);
  }

  lemma ClientSignalsControl(s: State, c: nat)
    requires ControlInv(s) && c < |s.clients| && s.clients[c].Signalling? && !s.clients[c].op.WaitOp?
    ensures ControlInv(ClientNext(s, c).value)
  {
  }

  lemma WaitSignals(s: State, c: nat)
    requires Inv(s) && c < |s.clients| && s.clients[c].Signalling? && s.clients[c].op.WaitOp?
    ensures Inv(ClientNext(s, c).value)
  {
    assert OpIs(s.clients[c], WaitOp) && c == 0;
    assert Partial(ClientNext(s, c).value) == Partial(s);
    WaitSignalsControl(s, c);
  }

  lemma WaitSignalsControl(s: State, c: nat)
    requires ControlInv(s) && c < |s.clients| && s.clients[c].Signalling? && s.clients[c].op.WaitOp?
    ensures ControlInv(ClientNext(s, c).value)
  {
  }

  lemma ClientJoins(s: State, c: nat)
    requires Inv(s) && c < |s.clients| && s.clients[c].Joining? && s.writer.WExited?
    ensures Inv(ClientNext(s, c).value)
  {
    assert Partial(ClientNext(s, c).value) == Partial(s);
  }

  lemma OwnerUnlocksLast(s: State, c: nat)
    requires Inv(s) && c < |s.clients| && s.clients[c].Dropping?
    ensures Inv(ClientNext(s, c).value)
  {
    assert s.holder == Client(c);
    assert Partial(ClientNext(s, c).value) == Partial(s) == [];
  }

  lemma OwnerEndsFirst(s: State, c: nat)
    requires Inv(s) && c < |s.clients| && s.clients[c] == Dropped(false)
    ensures Inv(ClientNext(s, c).value)
  {
    assert c == 0;
    assert Partial(ClientNext(s, c).value) == Partial(s);
    OwnerEndsFirstControl(s, c);
  }

  lemma OwnerEndsFirstControl(s: State, c: nat)
    requires ControlInv(s) && c < |s.clients| && s.clients[c] == Dropped(false)
    ensures ControlInv(ClientNext(s, c).value)
  {
  }

  lemma OwnerEndsLast(s: State, c: nat)
    requires Inv(s) && c < |s.clients| && s.clients[c] == Dropped(true)
    ensures Inv(ClientNext(s, c).value)
  {
    assert c == 0 && s.live;
    assert Partial(ClientNext(s, c).value) == Partial(s);
  }

  lemma ClientStepKeepsInv(s: State, c: nat)
    requires Inv(s) && c < |s.clients| && ClientNext(s, c).Some?
    ensures Inv(ClientNext(s, c).value)
  {
    match s.clients[c] {
      case WantLock(_) => ClientLocks(s, c);
      case Holding(op, written) =>
        if op.Write? && written < |op.call| {
          ClientQueues(s, c);
        } else if op.Write? {
          ClientFinishesCall(s, c);
        } else if op.CloseOp? {
          CloseSets(s, c);
        } else if op.WaitOp? {
          WaitSets(s, c);
        } else {
          FreeDrops(s, c);
        }
      case Changed(_) => ClientUnlocks(s, c);
      case Signalling(op) =>
        if op.WaitOp? {
          WaitSignals(s, c);
        } else {
          ClientSignals(s, c);
        }
      case Joining => ClientJoins(s, c);
      case Dropping(_) => OwnerUnlocksLast(s, c);
      case Dropped(last) =>
        if last {
          OwnerEndsLast(s, c);
        } else {
          OwnerEndsFirst(s, c);
        }
    }
  }

  /** Every step of every thread keeps the invariant. */
  lemma StepKeepsInv(s: State, a: Action)
    requires Inv(s) && Do(s, a).Some?
    ensures Inv(Do(s, a).value)
  {
    match a {
      case WriterStep => WriterStepKeepsInv(s);
      case Start(c, op) => ClientStarts(s, c, op);
      case ClientStep(c) => ClientStepKeepsInv(s, c);
    }
  }

  lemma {:induction false} ExecKeepsInv(s: State, schedule: seq<Action>)
    requires Inv(s) && Exec(s, schedule).Some?
    ensures Inv(Exec(s, schedule).value)
    decreases |schedule|
  {
    if schedule != [] {
      StepKeepsInv(s, schedule[0]);
      ExecKeepsInv(Do(s, schedule[0]).value, schedule[1..]);
    }
  }

  lemma ReachableInv(s: State)
    requires Reachable(s)
    ensures Inv(s)
  {
    var n: nat, schedule :| n > 0 && Exec(Init(n), schedule) == Some(s);
    InitInv(n);
    ExecKeepsInv(Init(n), schedule);
  }

  // ---------------------------------------------------------------- what every run keeps

  /** File, local buffer and ring together are the calls in lock order, then the part of the call in progress. */
  lemma StreamIsIntact(s: State)
    requires Reachable(s)
    ensures s.file + s.local + s.ring == CallBytes(s.calls) + Partial(s)
  {
    ReachableInv(s);
  }

  lemma {:induction false} CallBytesPrefix(calls: seq<Call>, k: nat)
    requires k <= |calls|
    ensures CallBytes(calls[..k]) <= CallBytes(calls)
  {
    if k < |calls| {
      CallBytesPrefix(calls[..|calls| - 1], k);
      assert calls[..|calls| - 1][..k] == calls[..k];
    } else {
      assert calls[..k] == calls;
    }
  }

  /** As far as the file reaches, the bytes of a call stand in it in one piece, behind those of the calls before. */
  lemma CallsAreContiguous(s: State, k: nat)
    requires Reachable(s) && k < |s.calls|
    ensures var start := |CallBytes(s.calls[..k])|;
            var end := start + |Flatten(s.calls[k])|;
            end <= |s.file| ==> s.file[start..end] == Flatten(s.calls[k])
  {
    StreamIsIntact(s);
    var before := s.calls[..k];
    assert s.calls[..k + 1] == before + [s.calls[k]];
    CallBytesSnoc(before, s.calls[k]);
    CallBytesPrefix(s.calls, k + 1);
    SliceOfStream(s.file, s.local + s.ring, CallBytes(before), Flatten(s.calls[k]), CallBytes(s.calls) + Partial(s));
  }

  lemma SliceOfStream(file: seq<byte>, rest: seq<byte>, before: seq<byte>, piece: seq<byte>, all: seq<byte>)
    requires file + rest == all && before + piece <= all
    ensures |before| + |piece| <= |file| ==> file[|before|..|before| + |piece|] == piece
  {
    if |before| + |piece| <= |file| {
      assert file == all[..|file|];
      assert before + piece == all[..|before| + |piece|];
      assert file[|before|..|before| + |piece|] == (before + piece)[|before|..];
    }
  }

  /** The structure is released once, when the last of the two holders is through, and never used after. */
  lemma ReleasedOnceAndNotUsedAfter(s: State)
    requires Reachable(s)
    ensures |s.clients| > 0
    ensures !s.touchedFreed
    ensures s.frees <= 1 && s.closes <= 1
    ensures s.live <==> s.frees == 0
    ensures !(WriterDropped(s.writer) && OwnerDropped(s.clients[0])) ==> s.frees == 0
    ensures s.writer.WExited? && s.clients[0].Gone? ==> s.frees == 1 && (s.writer.last <==> !s.clients[0].last)
  {
    ReachableInv(s);
  }

  /** The clients that have changed the shared state and not yet signalled. */
  function Owing(s: State): (r: set<nat>)
  {
    set c: nat | c < |s.clients| && OwesSignal(s.clients[c])
  }

  lemma NoLostWakeup(s: State)
    requires Reachable(s)
    requires s.writer.WSleep? && (s.ring != [] || s.finish != Running)
    ensures s.sem + |Owing(s)| > 0
  {
    ReachableInv(s);
    if s.sem == 0 {
      var c: nat :| c < |s.clients| && OwesSignal(s.clients[c]);
      assert c in Owing(s);
    }
  }

  /** The writer leaves its loop only when every byte queued so far is in the file. */
  lemma ExitAfterEverythingIsWritten(s: State)
    requires Reachable(s) && WriterNext(s).Some?
    requires !WriterLeft(s.writer) && WriterLeft(WriterNext(s).value.writer)
    ensures s.file == CallBytes(s.calls) && s.ring == [] && s.local == []
  {
    ReachableInv(s);
    WriterLeaves(s);
  }

  /** aio_wait hands a real thread handle to thread_wait. */
  lemma WaitHasThread(s: State)
    requires Reachable(s) && |s.clients| > 0 && s.clients[0] == Holding(WaitOp, 0)
    ensures s.hasThread
  {
    ReachableInv(s);
  }

  /** Once aio_wait has returned, every call finished before the first aio_close or aio_wait is in the file. */
  lemma JoinedMeansWritten(s: State)
    requires Reachable(s) && |s.clients| > 0
    requires s.waited && s.clients[0] == Idle
    ensures s.writer.WExited? && s.mark.Some? && s.mark.value <= |s.calls|
    ensures CallBytes(s.calls[..s.mark.value]) <= s.file
    ensures s.mark.value == |s.calls| ==> s.file == CallBytes(s.calls)
  {
    ReachableInv(s);
    assert s.clients[0] != Joining && !OpIs(s.clients[0], WaitOp);
    var upTo := s.calls[..s.exitCalls];
    CallBytesPrefix(upTo, s.mark.value);
    assert upTo[..s.mark.value] == s.calls[..s.mark.value];
    if s.mark.value == |s.calls| {
      assert upTo == s.calls;
    }
  }

  /** The file is closed if and only if `finish` was ASYNCIO_CLOSE when the writer left its loop. */
  lemma FileClosedIff(s: State)
    requires Reachable(s)
    ensures s.closes == 1 <==> WriterLeft(s.writer) && s.exitFinish == Close
    ensures s.closes == 0 <==> !(WriterLeft(s.writer) && s.exitFinish == Close)
    ensures s.finish == Exit ==> s.closes == 0
  {
    ReachableInv(s);
  }

  /** Finished calls stay finished, and once the file is to be closed it remains so. */
  ghost predicate Continues(s: State, t: State) {
    && s.calls <= t.calls && (s.mark.Some? ==> t.mark == s.mark)
    && (s.finish == Close && s.exitFinish != Exit ==> t.finish == Close && t.exitFinish != Exit)
  }

  predicate KeepsWriter(s: State, t: State) {
    t.file == s.file && t.local == s.local && t.writer == s.writer
  }

  lemma LoopContinues(s: State)
    requires s.writer.WTop?
    ensures Continues(s, WriterNext(s).value)
  {
  }

  lemma WaitingContinues(s: State)
    requires WriterNext(s).Some?
    requires s.writer.WWantLock? || s.writer.WSleep? || s.writer.WDrained? || s.writer.WWriting?
    ensures Continues(s, WriterNext(s).value)
  {
  }

  lemma LeavingContinues(s: State)
    requires s.writer.WClosed? || s.writer.WDropping? || s.writer.WDropped?
    ensures Continues(s, WriterNext(s).value)
  {
  }

  lemma CallContinues(s: State, c: nat, op: Op, written: nat)
    requires c < |s.clients| && InsideNext(s, c, op, written).Some?
    ensures Continues(s, InsideNext(s, c, op, written).value) && KeepsWriter(s, InsideNext(s, c, op, written).value)
  {
  }

  lemma SignalContinues(s: State, c: nat)
    requires c < |s.clients| && ClientNext(s, c).Some?
    requires s.clients[c].WantLock? || s.clients[c].Changed? || s.clients[c].Signalling?
    ensures Continues(s, ClientNext(s, c).value) && KeepsWriter(s, ClientNext(s, c).value)
  {
  }

  lemma OwnerContinues(s: State, c: nat)
    requires c < |s.clients| && ClientNext(s, c).Some?
    requires s.clients[c] == Joining || s.clients[c].Dropping? || s.clients[c].Dropped?
    ensures Continues(s, ClientNext(s, c).value) && KeepsWriter(s, ClientNext(s, c).value)
  {
  }

  lemma StepContinues(s: State, a: Action)
    requires Do(s, a).Some?
    ensures Continues(s, Do(s, a).value) && (a != WriterStep ==> KeepsWriter(s, Do(s, a).value))
  {
    match a {
      case WriterStep =>
        if s.writer.WTop? {
          LoopContinues(s);
        } else if s.writer.WClosed? || s.writer.WDropping? || s.writer.WDropped? {
          LeavingContinues(s);
        } else {
          WaitingContinues(s);
        }
      case Start(c, op) =>
      case ClientStep(c) =>
        match s.clients[c] {
          case Holding(op, written) => CallContinues(s, c, op, written);
          case Joining => OwnerContinues(s, c);
          case Dropping(_) => OwnerContinues(s, c);
          case Dropped(_) => OwnerContinues(s, c);
          case _ => SignalContinues(s, c);
        }
    }
  }

  lemma {:induction false} RunContinues(s: State, schedule: seq<Action>)
    requires Inv(s) && Exec(s, schedule).Some?
    ensures Continues(s, Exec(s, schedule).value) && Inv(Exec(s, schedule).value)
    decreases |schedule|
  {
    if schedule != [] {
      StepContinues(s, schedule[0]);
      StepKeepsInv(s, schedule[0]);
      RunContinues(Do(s, schedule[0]).value, schedule[1..]);
    }
  }

  /**
    What CLoggerAsync does to finish: the owner closes, waits, and possibly frees. When aio_wait has returned, the
    file is closed, once, and every call finished before the first aio_close is in it.
    */
  lemma CloseThenWait(s: State, schedule: seq<Action>, t: State)
    requires Reachable(s) && s.finish == Close && !s.waited
    requires Exec(s, schedule) == Some(t) && |t.clients| > 0
    requires t.waited && (t.clients[0] == Idle || t.clients[0].Gone?)
    ensures t.closes == 1 && s.mark.Some? && s.mark.value <= |s.calls|
    ensures CallBytes(s.calls[..s.mark.value]) <= t.file
  {
    ReachableInv(s);
    RunContinues(s, schedule);
    assert t.writer.WExited?;
    var k := s.mark.value;
    assert t.calls[..k] == s.calls[..k];
    CallBytesPrefix(t.calls[..t.exitCalls], k);
    assert t.calls[..t.exitCalls][..k] == t.calls[..k];
  }

  /** A caller that holds the lock with a piece for which the ring cannot grow any more. */
  predicate Stuck(s: State, c: nat)
    requires c < |s.clients|
  {
    match s.clients[c]
    case Holding(Write(call), written) => written < |call| && !Fits(|s.ring|, |call[written]|)
    case _ => false
  }

  lemma HolderCanMove(s: State)
    requires Inv(s) && s.holder.Client? && s.holder.id < |s.clients| && !Stuck(s, s.holder.id)
    ensures ClientNext(s, s.holder.id).Some?
  {
    assert Inside(s.clients[s.holder.id]);
  }

  /** While aio_wait is in thread_wait, somebody can move: the writer, or a client that brings it to move. */
  lemma WriterWillEnd(s: State)
    requires Inv(s) && s.clients[0] == Joining && !s.writer.WExited? && s.holder == Nobody
    ensures WriterNext(s).Some? || exists d :: 0 <= d < |s.clients| && ClientNext(s, d).Some?
  {
    if WriterNext(s).None? {
      assert s.writer.WSleep? && s.sem == 0 && s.finish != Running;
      var d :| 0 <= d < |s.clients| && OwesSignal(s.clients[d]);
      assert !Inside(s.clients[d]);
      assert ClientNext(s, d).Some?;
    }
  }

  /** When neither the writer nor a client can move, every call has returned, aio_wait included. */
  lemma NoDeadlock(s: State)
    requires Reachable(s) && WriterNext(s).None?
    requires forall c: nat :: c < |s.clients| ==> ClientNext(s, c).None? && !Stuck(s, c)
    ensures forall c :: 0 <= c < |s.clients| ==> s.clients[c] == Idle || s.clients[c].Gone?
  {
    ReachableInv(s);
    if s.holder.Client? {
      HolderCanMove(s);
    }
    forall c | 0 <= c < |s.clients| ensures s.clients[c] == Idle || s.clients[c].Gone? {
      assert ClientNext(s, c).None? && !Stuck(s, c);
      if s.clients[c] == Joining {
        WriterWillEnd(s);
      }
    }
  }

  /** Once the writer has left its loop, exactly the calls finished by then are in the file. */
  lemma WrittenIffFinishedBeforeExit(s: State, k: nat)
    requires Reachable(s) && WriterLeft(s.writer) && k < |s.calls| && Flatten(s.calls[k]) != []
    ensures s.mark.Some? && s.mark.value <= s.exitCalls
    ensures CallBytes(s.calls[..k + 1]) <= s.file <==> k < s.exitCalls
  {
    ReachableInv(s);
    PrefixHasCall(s.calls, s.exitCalls, k);
  }

  lemma PrefixHasCall(calls: seq<Call>, n: nat, k: nat)
    requires n <= |calls| && k < |calls| && Flatten(calls[k]) != []
    ensures CallBytes(calls[..k + 1]) <= CallBytes(calls[..n]) <==> k < n
  {
    assert calls[..k + 1] == calls[..k] + [calls[k]];
    CallBytesSnoc(calls[..k], calls[k]);
    if k < n {
      CallBytesPrefix(calls[..n], k + 1);
      assert calls[..n][..k + 1] == calls[..k + 1];
    } else {
      CallBytesPrefix(calls[..k], n);
      assert calls[..k][..n] == calls[..n];
    }
  }

  /** A fresh structure with one client, closed before anything was queued. */
  function ClosedAtOnce(): State {
    Init(1).(finish := Close, mark := Some(0), sem := 1, clients := [Idle])
  }

  lemma ClosingAtOnce(schedule: seq<Action>)
    requires schedule == [Start(0, CloseOp), ClientStep(0), ClientStep(0), ClientStep(0), ClientStep(0)]
    ensures Exec(Init(1), schedule) == Some(ClosedAtOnce())
  {
    var init := Init(1).(clients := [Idle]);
    assert init.clients == Init(1).clients;
    var a := SetClient(init, 0, WantLock(CloseOp));
    var b := SetClient(a, 0, Holding(CloseOp, 0)).(holder := Client(0));
    var c := SetClient(b, 0, Changed(CloseOp)).(finish := Close, mark := Some(0));
    var d := SetClient(c, 0, Signalling(CloseOp)).(holder := Nobody);
    assert d.clients[0 := Idle] == [Idle];
    ExecFive(init, schedule, a, b, c, d, ClosedAtOnce());
  }

  /** The writer finds nothing to do and ends. */
  function ClosedAndLeft(): State {
    ClosedAtOnce().(writer := WExited(false), closes := 1, exitFinish := Close, refcount := 1)
  }

  lemma LeavingAtOnce(schedule: seq<Action>)
    requires schedule == [WriterStep, WriterStep, WriterStep, WriterStep, WriterStep]
    ensures Exec(ClosedAtOnce(), schedule) == Some(ClosedAndLeft())
  {
    var a := ClosedAtOnce().(holder := Writer, writer := WTop);
    var b := a.(writer := WClosed, closes := 1, exitFinish := Close);
    var c := b.(writer := WDropping(false), refcount := 1);
    var d := c.(writer := WDropped(false), holder := Nobody);
    ExecFive(ClosedAtOnce(), schedule, a, b, c, d, ClosedAndLeft());
  }

  /** A byte queued after that stays in the ring. */
  function QueuedTooLate(): State {
    ClosedAndLeft().(ring := [65], calls := [[[65]]], sem := 2)
  }

  lemma QueuingTooLate(op: Op, schedule: seq<Action>)
    requires op == Write([[65]])
    requires schedule == [Start(0, op), ClientStep(0), ClientStep(0), ClientStep(0), ClientStep(0)]
    ensures Exec(ClosedAndLeft(), schedule) == Some(QueuedTooLate())
  {
    var a := SetClient(ClosedAndLeft(), 0, WantLock(op));
    var b := SetClient(a, 0, Holding(op, 0)).(holder := Client(0));
    var c := SetClient(b, 0, Holding(op, 1)).(ring := [65]);
    var d := SetClient(c, 0, Signalling(op)).(holder := Nobody, calls := [[[65]]]);
    assert d.clients[0 := Idle] == [Idle];
    assert ClosedAndLeft().ring + op.call[0] == [65] && ClosedAndLeft().calls + [op.call] == [[[65]]];
    ExecFive(ClosedAndLeft(), schedule, a, b, c, d, QueuedTooLate());
  }

  /**
    A call that comes after `finish` was set can be lost: nobody reads the ring once the writer
    has left. The bound of JoinedMeansWritten is therefore the right one.
    */
  lemma LateCallIsLost() returns (s: State)
    ensures Reachable(s)
    ensures s.writer.WExited? && s.mark == Some(0)
    ensures s.calls == [[[65]]] && s.ring == [65] && s.file == []
  {
    var op := Write([[65]]);
    var close := [Start(0, CloseOp), ClientStep(0), ClientStep(0), ClientStep(0), ClientStep(0)];
    var leave := [WriterStep, WriterStep, WriterStep, WriterStep, WriterStep];
    var late := [Start(0, op), ClientStep(0), ClientStep(0), ClientStep(0), ClientStep(0)];
    ClosingAtOnce(close);
    LeavingAtOnce(leave);
    QueuingTooLate(op, late);
    s := QueuedTooLate();
    ExecThree(close, leave, late, ClosedAtOnce(), ClosedAndLeft(), s);
  }

  lemma ExecThree(first: seq<Action>, second: seq<Action>, third: seq<Action>, a: State, b: State, c: State)
    requires Exec(Init(1), first) == Some(a) && Exec(a, second) == Some(b) && Exec(b, third) == Some(c)
    ensures Reachable(c)
  {
    ExecAppend(Init(1), first, second);
    ExecAppend(Init(1), first + second, third);
  }

  lemma ExecFive(s: State, schedule: seq<Action>, a: State, b: State, c: State, d: State, t: State)
    requires |schedule| == 5
    requires Do(s, schedule[0]) == Some(a) && Do(a, schedule[1]) == Some(b) && Do(b, schedule[2]) == Some(c)
    requires Do(c, schedule[3]) == Some(d) && Do(d, schedule[4]) == Some(t)
    ensures Exec(s, schedule) == Some(t)
  {
    assert Exec(d, schedule[4..]) == Some(t) by { assert schedule[4..][1..] == []; }
    assert Exec(c, schedule[3..]) == Some(t) by { assert schedule[3..][1..] == schedule[4..]; }
    assert Exec(b, schedule[2..]) == Some(t) by { assert schedule[2..][1..] == schedule[3..]; }
    assert Exec(a, schedule[1..]) == Some(t) by { assert schedule[1..][1..] == schedule[2..]; }
  }

  lemma ExecFour(s: State, schedule: seq<Action>, a: State, b: State, c: State, t: State)
    requires |schedule| == 4
    requires Do(s, schedule[0]) == Some(a) && Do(a, schedule[1]) == Some(b)
    requires Do(b, schedule[2]) == Some(c) && Do(c, schedule[3]) == Some(t)
    ensures Exec(s, schedule) == Some(t)
  {
    assert Exec(c, schedule[3..]) == Some(t) by { assert schedule[3..][1..] == []; }
    assert Exec(b, schedule[2..]) == Some(t) by { assert schedule[2..][1..] == schedule[3..]; }
    assert Exec(a, schedule[1..]) == Some(t) by { assert schedule[1..][1..] == schedule[2..]; }
  }

  lemma {:induction false} ExecAppend(s: State, first: seq<Action>, second: seq<Action>)
    requires Exec(s, first).Some?
    ensures Exec(s, first + second) == Exec(Exec(s, first).value, second)
    decreases |first|
  {
    if first == [] {
      assert first + second == second;
    } else {
      assert (first + second)[1..] == first[1..] + second;
      ExecAppend(Do(s, first[0]).value, first[1..], second);
    }
  }

  /** Where a client is after k steps of aio_close. */
  function ClosingPc(k: nat): ClientPc {
    match k
    case 0 => WantLock(CloseOp)
    case 1 => Holding(CloseOp, 0)
    case 2 => Changed(CloseOp)
    case _ => Signalling(CloseOp)
  }

  /** Two clients; the second one has made k steps of aio_close. */
  function Closing(k: nat): State {
    Init(2).(clients := [Idle, ClosingPc(k)],
             holder := if k == 1 || k == 2 then Client(1) else Nobody,
             finish := if k < 2 then Running else Close,
             mark := if k < 2 then None else Some(0))
  }

  /** The owner frees nevertheless, which MayStart excludes. */
  function FreeStarted(s: State): State
    requires |s.clients| > 0
  {
    SetClient(s, 0, WantLock(FreeOp)).(freeing := true)
  }

  /** The owner has dropped its reference, and the writer takes the lock. */
  function FreedTooEarly(): State {
    Closing(3).(freeing := true, clients := [Gone(false), Signalling(CloseOp)], hasThread := false,
                       refcount := 1, holder := Writer, writer := WTop)
  }

  lemma FreeingTooEarly(s: State, schedule: seq<Action>)
    requires s == FreeStarted(Closing(3))
    requires schedule == [ClientStep(0), ClientStep(0), ClientStep(0), ClientStep(0), WriterStep]
    ensures Exec(s, schedule) == Some(FreedTooEarly())
  {
    var a := SetClient(s, 0, Holding(FreeOp, 0)).(holder := Client(0));
    var b := SetClient(a, 0, Dropping(false)).(hasThread := false, refcount := 1);
    var c := SetClient(b, 0, Dropped(false)).(holder := Nobody);
    var d := SetClient(c, 0, Gone(false));
    assert d.clients == [Gone(false), Signalling(CloseOp)];
    ExecFive(s, schedule, a, b, c, d, FreedTooEarly());
  }

  /** The writer ends, and drops the last reference. */
  function ReleasedTooEarly(): State {
    FreedTooEarly().(writer := WExited(true), closes := 1, exitFinish := Close, refcount := 0, holder := Nobody,
                     live := false, frees := 1)
  }

  lemma ReleasingTooEarly(schedule: seq<Action>)
    requires schedule == [WriterStep, WriterStep, WriterStep, WriterStep]
    ensures Exec(FreedTooEarly(), schedule) == Some(ReleasedTooEarly())
  {
    var a := FreedTooEarly().(writer := WClosed, closes := 1, exitFinish := Close);
    var b := a.(writer := WDropping(true), refcount := 0);
    var c := b.(writer := WDropped(true), holder := Nobody);
    ExecFour(FreedTooEarly(), schedule, a, b, c, ReleasedTooEarly());
  }

  lemma SignallingTooLate(schedule: seq<Action>) returns (t: State)
    requires schedule == [ClientStep(1)]
    ensures Exec(ReleasedTooEarly(), schedule) == Some(t) && t.touchedFreed
  {
    t := Do(ReleasedTooEarly(), schedule[0]).value;
    assert Exec(t, schedule[1..]) == Some(t);
  }

  /** From the early call of aio_free with a client about to signal, to the access. */
  lemma EarlyFreeRun() returns (schedule: seq<Action>, t: State)
    ensures Exec(FreeStarted(Closing(3)), schedule) == Some(t) && t.touchedFreed
  {
    var early := FreeStarted(Closing(3));
    var first := [ClientStep(0), ClientStep(0), ClientStep(0), ClientStep(0), WriterStep];
    var second := [WriterStep, WriterStep, WriterStep, WriterStep];
    var third := [ClientStep(1)];
    FreeingTooEarly(early, first);
    ReleasingTooEarly(second);
    t := SignallingTooLate(third);
    ExecAppend(FreedTooEarly(), second, third);
    ExecAppend(early, first, second + third);
    schedule := first + (second + third);
  }

  lemma ClosingStep(k: nat)
    requires k < 3
    ensures Do(Closing(k), ClientStep(1)) == Some(Closing(k + 1))
    ensures Do(FreeStarted(Closing(k)), ClientStep(1)) == Some(FreeStarted(Closing(k + 1)))
  {
    var pc := ClosingPc(k + 1);
    assert Closing(k).clients[1 := pc] == Closing(k + 1).clients;
    var early := FreeStarted(Closing(k));
    assert early.clients == [WantLock(FreeOp), ClosingPc(k)];
    assert early.clients[1 := pc] == FreeStarted(Closing(k + 1)).clients;
  }

  lemma {:induction false} ReachClosing(k: nat) returns (schedule: seq<Action>)
    requires k < 4
    ensures Exec(Init(2), schedule) == Some(Closing(k))
  {
    if k == 0 {
      schedule := [Start(1, CloseOp)];
      var init := Init(2);
      assert init.clients == [Idle, Idle];
      assert init.clients[1 := WantLock(CloseOp)] == [Idle, WantLock(CloseOp)];
      assert Exec(Closing(0), schedule[1..]) == Some(Closing(0));
    } else {
      var before := ReachClosing(k - 1);
      ClosingStep(k - 1);
      assert Exec(Closing(k - 1), [ClientStep(1)]) == Some(Closing(k)) by {
        assert [ClientStep(1)][1..] == [];
      }
      ExecAppend(Init(2), before, [ClientStep(1)]);
      schedule := before + [ClientStep(1)];
    }
  }

  /**
    The rule that the owner frees alone is needed, wherever in its call the other client is: from a reachable
    state in which it is about to lock, holds the lock, has changed the state, or has still to signal, freeing
    can lead to an access to the released structure.
    */
  lemma {:induction false} FreeTooEarly(k: nat) returns (schedule: seq<Action>, t: State)
    requires k < 4
    ensures Reachable(Closing(k)) && Closing(k).clients[0] == Idle && Closing(k).clients[1] != Idle
    ensures !Closing(k).freeing
    ensures Exec(FreeStarted(Closing(k)), schedule) == Some(t) && t.touchedFreed
    decreases 4 - k
  {
    var reach := ReachClosing(k);
    if k == 3 {
      schedule, t := EarlyFreeRun();
    } else {
      var rest;
      rest, t := FreeTooEarly(k + 1);
      ClosingStep(k);
      schedule := [ClientStep(1)] + rest;
      assert schedule[1..] == rest;
    }
  }

  /** The owner frees, and every other client is idle or in a call that only writes, while `finish` is not set. */
  predicate FreesBesideWrites(s: State) {
    && |s.clients| > 0 && s.freeing && s.finish == Running && s.live && !s.touchedFreed && !WriterLeft(s.writer)
    && OnlyFrees(s.clients[0], s.refcount)
    && forall c :: 0 < c < |s.clients| ==> OnlyWrites(s.clients[c])
  }

  predicate OnlyFrees(pc: ClientPc, refcount: int) {
    if OwnerDropped(pc) then refcount == 1 && !pc.last
    else refcount == 2 && (pc.WantLock? || pc.Holding?) && pc.op == FreeOp
  }

  predicate OnlyWrites(pc: ClientPc) {
    pc == Idle || ((pc.WantLock? || pc.Holding? || pc.Signalling?) && pc.op.Write?)
  }

  lemma OwnerOnlyFrees(s: State)
    requires FreesBesideWrites(s) && ClientNext(s, 0).Some?
    ensures FreesBesideWrites(ClientNext(s, 0).value)
  {
    var t := ClientNext(s, 0).value;
    assert OnlyFrees(t.clients[0], t.refcount);
    assert forall c :: 0 < c < |s.clients| ==> t.clients[c] == s.clients[c];
  }

  lemma OthersOnlyWrite(s: State, c: nat)
    requires FreesBesideWrites(s) && 0 < c < |s.clients| && ClientNext(s, c).Some?
    ensures FreesBesideWrites(ClientNext(s, c).value)
  {
    var t := ClientNext(s, c).value;
    assert OnlyWrites(s.clients[c]);
    assert OnlyWrites(t.clients[c]);
    assert t.clients[0] == s.clients[0] && t.refcount == s.refcount;
    assert forall d :: 0 < d < |s.clients| && d != c ==> t.clients[d] == s.clients[d];
  }

  lemma StepFreesBesideWrites(s: State, a: Action)
    requires FreesBesideWrites(s) && Do(s, a).Some?
    ensures FreesBesideWrites(Do(s, a).value)
  {
    match a
    case WriterStep =>
    case Start(_, _) =>
    case ClientStep(c) =>
      if c == 0 {
        OwnerOnlyFrees(s);
      } else {
        OthersOnlyWrite(s, c);
      }
  }

  /** The rule is not needed there: the writer keeps its reference, and nothing is ever released. */
  lemma {:induction false} FreeBesideWritesIsSafe(s: State, schedule: seq<Action>)
    requires FreesBesideWrites(s) && Exec(s, schedule).Some?
    ensures var t := Exec(s, schedule).value; t.live && !t.touchedFreed && t.refcount > 0
    decreases |schedule|
  {
    if schedule != [] {
      StepFreesBesideWrites(s, schedule[0]);
      FreeBesideWritesIsSafe(Do(s, schedule[0]).value, schedule[1..]);
    }
  }

  /** In particular from a reachable state, when the owner frees beside clients that only write. */
  lemma FreeBesideWrites(s: State, schedule: seq<Action>)
    requires Reachable(s) && s.finish == Running && |s.clients| > 0 && s.clients[0] == Idle && !s.freeing
    requires forall c :: 0 < c < |s.clients| ==> OnlyWrites(s.clients[c])
    requires Exec(FreeStarted(s), schedule).Some?
    ensures var t := Exec(FreeStarted(s), schedule).value; t.live && !t.touchedFreed && t.refcount > 0
  {
    ReachableInv(s);
    FreeBesideWritesIsSafe(FreeStarted(s), schedule);
  }

  // ---------------------------------------------------------------- progress of the writer

  /** Steps the writer has ahead of it before it must drain, wake or end. */
  function WriterRank(pc: WriterPc): (r: nat)
  {
    match pc
    case WDrained => 9
    case WWriting => 8
    case WWantLock => 7
    case WTop => 6
    case WSleep => 5
    case WClosed => 3
    case WDropping(_) => 2
    case WDropped(_) => 1
    case WExited(_) => 0
  }

  /** No client is inside the lock or owes a signal. */
  ghost predicate ClientsQuiet(s: State) {
    forall c :: 0 <= c < |s.clients| ==> !Inside(s.clients[c]) && !OwesSignal(s.clients[c])
  }

  /** t is closer to the writer's rest than s, in the order (ring, semaphore, rank), with the clients unmoved. */
  predicate Closer(t: State, s: State) {
    && t.clients == s.clients && t.calls == s.calls && t.finish == s.finish
    && (|t.ring| < |s.ring| ||
        (t.ring == s.ring && (t.sem < s.sem || (t.sem == s.sem && WriterRank(t.writer) < WriterRank(s.writer)))))
  }

  lemma DrainingProgress(s: State)
    requires s.writer.WTop? && s.ring != []
    ensures Closer(WriterNext(s).value, s)
  {
  }

  lemma TopProgress(s: State)
    requires s.writer.WTop? && s.ring == []
    ensures Closer(WriterNext(s).value, s)
  {
  }

  lemma WritingProgress(s: State)
    requires WriterNext(s).Some?
    requires s.writer.WDrained? || s.writer.WWriting? || s.writer.WWantLock? || s.writer.WSleep?
    ensures Closer(WriterNext(s).value, s)
  {
  }

  lemma DroppingProgress(s: State)
    requires s.writer.WClosed? || s.writer.WDropping?
    ensures Closer(WriterNext(s).value, s)
  {
  }

  lemma EndingProgress(s: State)
    requires s.writer.WDropped?
    ensures Closer(WriterNext(s).value, s)
  {
  }

  lemma WriterStepProgress(s: State)
    requires WriterNext(s).Some?
    ensures Closer(WriterNext(s).value, s)
  {
    match s.writer {
      case WTop =>
        if s.ring != [] {
          DrainingProgress(s);
        } else {
          TopProgress(s);
        }
      case WDrained => WritingProgress(s);
      case WWriting => WritingProgress(s);
      case WWantLock => WritingProgress(s);
      case WSleep => WritingProgress(s);
      case WClosed => DroppingProgress(s);
      case WDropping(_) => DroppingProgress(s);
      case WDropped(_) => EndingProgress(s);
    }
  }

  /** A writer that cannot move has ended, or sleeps with nothing to do. */
  lemma WriterAtRest(s: State)
    requires Inv(s) && ClientsQuiet(s) && WriterNext(s).None?
    ensures s.finish != Running ==> s.writer.WExited?
    ensures s.finish == Running ==> s.writer.WSleep? && s.file == CallBytes(s.calls)
    ensures s.clients[0].Gone? ==> (s.live <==> s.finish == Running)
  {
    assert s.writer.WSleep? || s.writer.WExited?;
    if s.writer.WSleep? {
      assert s.sem == 0 && s.ring == [] && s.finish == Running;
      assert Partial(s) == [] && s.local == [];
      assert s.file == s.file + s.local + s.ring == CallBytes(s.calls) + [] == CallBytes(s.calls);
    }
  }

  /**
    Left to itself the writer comes to rest after finitely many steps. If `finish` is set it has
    ended, and if the owner has freed as well the structure is released; if not, it sleeps with
    everything written, and a structure that was freed without being closed or waited for stays allocated.
    */
  lemma {:induction false} WriterComesToRest(s: State) returns (schedule: seq<Action>, t: State)
    requires Inv(s) && ClientsQuiet(s)
    ensures forall a :: a in schedule ==> a == WriterStep
    ensures Exec(s, schedule) == Some(t) && WriterNext(t) == None
    ensures Inv(t) && t.clients == s.clients && t.calls == s.calls && t.finish == s.finish
    ensures s.finish != Running ==> t.writer.WExited?
    ensures s.finish == Running ==> t.writer.WSleep? && t.file == CallBytes(t.calls)
    ensures s.clients[0].Gone? ==> (t.live <==> s.finish == Running)
    decreases |s.ring|, s.sem, WriterRank(s.writer)
  {
    if WriterNext(s).None? {
      WriterAtRest(s);
      schedule, t := [], s;
    } else {
      var next := WriterNext(s).value;
      WriterStepKeepsInv(s);
      WriterStepProgress(s);
      var rest;
      rest, t := WriterComesToRest(next);
      schedule := [WriterStep] + rest;
      assert schedule[1..] == rest;
    }
  }

  // ---------------------------------------------------------------- progress while clients go on

  /** The number of steps of the writer in a schedule. */
  function WriterSteps(schedule: seq<Action>): nat
  {
    if schedule == [] then 0 else (if schedule[0] == WriterStep then 1 else 0) + WriterSteps(schedule[1..])
  }

  function Phase(pc: WriterPc): nat
  {
    match pc
    case WDrained => 4
    case WWriting => 3
    case WSleep => 3
    case WWantLock => 2
    case WTop => 1
    case _ => 0
  }

  /** An upper bound on the writer's steps until the first `size` bytes are in the file. */
  function StepsLeft(s: State, size: nat): nat
  {
    var drained := |s.file| + |s.local|;
    if |s.file| >= size then 0 else Phase(s.writer) + 1 + if drained < size then 5 * (size - drained) else 0
  }

  /** The writer is at work on the first `size` bytes that were queued. */
  ghost predicate Working(s: State, size: nat) {
    Inv(s) && size <= |CallBytes(s.calls)| && (|s.file| < size ==> !WriterLeft(s.writer))
  }

  lemma StillToDrain(s: State, size: nat)
    requires Working(s, size) && |s.file| + |s.local| < size
    ensures s.ring != []
  {
    assert |s.file + s.local + s.ring| == |CallBytes(s.calls) + Partial(s)|;
  }

  lemma WriterApproaches(s: State, size: nat)
    requires Working(s, size) && WriterNext(s).Some? && |s.file| < size
    ensures Working(WriterNext(s).value, size) && StepsLeft(WriterNext(s).value, size) < StepsLeft(s, size)
  {
    WriterStepKeepsInv(s);
    if |s.file| + |s.local| < size {
      StillToDrain(s, size);
    }
    if s.writer.WTop? {
      TopApproaches(s, size);
    } else {
      OtherApproaches(s, size);
    }
  }

  lemma TopApproaches(s: State, size: nat)
    requires s.writer.WTop? && |s.file| < size && s.local == [] && s.ring != []
    ensures var t := WriterNext(s).value;
            t.calls == s.calls && t.writer == WDrained && StepsLeft(t, size) < StepsLeft(s, size)
  {
  }

  lemma OtherApproaches(s: State, size: nat)
    requires !s.writer.WTop? && WriterNext(s).Some? && |s.file| < size && !WriterLeft(s.writer)
    requires s.local != [] ==> s.writer.WDrained? || s.writer.WWriting?
    ensures var t := WriterNext(s).value;
            t.calls == s.calls && !WriterLeft(t.writer) && StepsLeft(t, size) < StepsLeft(s, size)
  {
  }

  lemma CallBytesGrow(calls: seq<Call>, more: seq<Call>)
    requires calls <= more
    ensures CallBytes(calls) <= CallBytes(more)
  {
    CallBytesPrefix(more, |calls|);
    assert more[..|calls|] == calls;
  }

  lemma FileGrows(s: State)
    requires WriterNext(s).Some?
    ensures s.file <= WriterNext(s).value.file
  {
  }

  lemma {:induction false} RunApproaches(s: State, schedule: seq<Action>, size: nat)
    requires Working(s, size) && Exec(s, schedule).Some?
    ensures var t := Exec(s, schedule).value;
            && Working(t, size)
            && (|t.file| >= size || StepsLeft(t, size) + WriterSteps(schedule) <= StepsLeft(s, size))
    decreases |schedule|
  {
    if schedule != [] {
      var next := Do(s, schedule[0]).value;
      StepApproaches(s, schedule[0], size);
      RunApproaches(next, schedule[1..], size);
    }
  }

  lemma StepApproaches(s: State, a: Action, size: nat)
    requires Working(s, size) && Do(s, a).Some?
    ensures var t := Do(s, a).value;
            && Working(t, size) && (|s.file| >= size ==> |t.file| >= size)
            && (|t.file| >= size || StepsLeft(t, size) + (if a == WriterStep then 1 else 0) <= StepsLeft(s, size))
  {
    var t := Do(s, a).value;
    StepKeepsInv(s, a);
    StepContinues(s, a);
    CallBytesGrow(s.calls, t.calls);
    if a == WriterStep {
      FileGrows(s);
      if |s.file| < size {
        WriterApproaches(s, size);
      }
    } else {
      assert KeepsWriter(s, t);
    }
  }

  /**
    However the clients go on, every call that is finished is in the file after boundedly many steps of the
    writer, unless the writer had left its loop before.
    */
  lemma WrittenInBoundedSteps(s: State, schedule: seq<Action>, t: State)
    requires Reachable(s) && !WriterLeft(s.writer) && Exec(s, schedule) == Some(t)
    requires WriterSteps(schedule) >= 5 * |CallBytes(s.calls)| + 5
    ensures CallBytes(s.calls) <= t.file
  {
    ReachableInv(s);
    EnoughSteps(s, schedule);
    RunKeepsData(s, schedule, t);
    StreamOf(t);
    CallBytesGrow(s.calls, t.calls);
    PrefixOfStream(t.file, t.local + t.ring, CallBytes(s.calls), CallBytes(t.calls) + Partial(t));
  }

  lemma EnoughSteps(s: State, schedule: seq<Action>)
    requires Inv(s) && !WriterLeft(s.writer) && Exec(s, schedule).Some?
    requires WriterSteps(schedule) >= 5 * |CallBytes(s.calls)| + 5
    ensures |Exec(s, schedule).value.file| >= |CallBytes(s.calls)|
  {
    RunApproaches(s, schedule, |CallBytes(s.calls)|);
  }

  lemma RunKeepsData(s: State, schedule: seq<Action>, t: State)
    requires Inv(s) && Exec(s, schedule) == Some(t)
    ensures s.calls <= t.calls && DataInv(t)
  {
    RunContinues(s, schedule);
  }

  lemma StreamOf(s: State)
    requires DataInv(s)
    ensures s.file + (s.local + s.ring) == CallBytes(s.calls) + Partial(s)
  {
    assert s.file + (s.local + s.ring) == s.file + s.local + s.ring;
  }

  lemma PrefixOfStream(file: seq<byte>, rest: seq<byte>, start: seq<byte>, all: seq<byte>)
    requires file + rest == all && start <= all && |start| <= |file|
    ensures start <= file
  {
    assert file == all[..|file|];
  }
}
