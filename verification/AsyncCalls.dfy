/**
  What a call of the asynchronous writer has done by the time it returns (src/base/system.cpp): over every
  interleaving, every write that was started is recorded once, and a call that has returned has taken effect.
  */
module AsyncCalls {
  import opened Bytes
  import opened AsyncRing
  import opened AsyncProtocol
  import opened Common

  // ---------------------------------------------------------------- every write is recorded

  /** The call of a write that has not left its critical section yet. */
  function Underway(pc: ClientPc): Option<Call> {
    if (pc.WantLock? || pc.Holding?) && pc.op.Write? then Some(pc.op.call) else None
  }

  function Bag(call: Option<Call>): multiset<Call> {
    if call.Some? then multiset{call.value} else multiset{}
  }

  function AllUnderway(clients: seq<ClientPc>): multiset<Call> {
    if clients == [] then multiset{} else Bag(Underway(clients[0])) + AllUnderway(clients[1..])
  }

  function StartedBy(a: Action): Option<Call> {
    if a.Start? && a.op.Write? then Some(a.op.call) else None
  }

  /** The calls of all writes that a schedule starts. */
  function Started(schedule: seq<Action>): multiset<Call> {
    if schedule == [] then multiset{} else Bag(StartedBy(schedule[0])) + Started(schedule[1..])
  }

  lemma {:induction false} UnderwayUpdate(clients: seq<ClientPc>, c: nat, pc: ClientPc)
    requires c < |clients|
    ensures AllUnderway(clients[c := pc]) + Bag(Underway(clients[c])) == AllUnderway(clients) + Bag(Underway(pc))
  {
    var after := clients[c := pc];
    if c == 0 {
      assert after[1..] == clients[1..];
      Exchange(Bag(Underway(pc)), AllUnderway(clients[1..]), Bag(Underway(clients[0])));
    } else {
      assert after[1..] == clients[1..][c - 1 := pc];
      UnderwayUpdate(clients[1..], c - 1, pc);
      Behind(Bag(Underway(clients[0])), AllUnderway(after[1..]), Bag(Underway(clients[c])),
             AllUnderway(clients[1..]), Bag(Underway(pc)));
    }
  }

  lemma Exchange<T>(x: multiset<T>, y: multiset<T>, z: multiset<T>)
    ensures (x + y) + z == (z + y) + x
  {
  }

  lemma Behind<T>(first: multiset<T>, x: multiset<T>, y: multiset<T>, z: multiset<T>, w: multiset<T>)
    requires x + y == z + w
    ensures (first + x) + y == (first + z) + w
  {
    assert (first + x) + y == first + (x + y);
    assert (first + z) + w == first + (z + w);
  }

  /** In a step of client c, only its own place changes, and a call leaves its hands exactly for the record. */
  predicate Moves(s: State, t: State, c: nat, started: Option<Call>)
    requires c < |s.clients|
  {
    && |t.clients| == |s.clients| && t.clients == s.clients[c := t.clients[c]]
    && (if started.Some? then Underway(s.clients[c]) == None && Underway(t.clients[c]) == started && t.calls == s.calls
        else if Underway(t.clients[c]) == Underway(s.clients[c]) then t.calls == s.calls
        else Underway(t.clients[c]) == None && t.calls == s.calls + [Underway(s.clients[c]).value])
  }

  lemma LockMoves(s: State, c: nat)
    requires c < |s.clients| && ClientNext(s, c).Some?
    requires s.clients[c].WantLock? || s.clients[c].Changed? || s.clients[c].Signalling?
    ensures Moves(s, ClientNext(s, c).value, c, None)
  {
  }

  lemma WriteMoves(s: State, c: nat, call: Call, written: nat)
    requires c < |s.clients| && s.clients[c] == Holding(Write(call), written)
    requires InsideNext(s, c, Write(call), written).Some?
    ensures Moves(s, InsideNext(s, c, Write(call), written).value, c, None)
  {
  }

  lemma OtherMoves(s: State, c: nat, op: Op, written: nat)
    requires c < |s.clients| && s.clients[c] == Holding(op, written) && !op.Write?
    requires InsideNext(s, c, op, written).Some?
    ensures Moves(s, InsideNext(s, c, op, written).value, c, None)
  {
  }

  lemma OwnerMoves(s: State, c: nat)
    requires c < |s.clients| && ClientNext(s, c).Some?
    requires s.clients[c] == Joining || s.clients[c].Dropping? || s.clients[c].Dropped?
    ensures Moves(s, ClientNext(s, c).value, c, None)
  {
  }

  lemma ClientMoves(s: State, c: nat)
    requires c < |s.clients| && ClientNext(s, c).Some?
    ensures Moves(s, ClientNext(s, c).value, c, None)
  {
    match s.clients[c] {
      case Holding(op, written) =>
        if op.Write? {
          WriteMoves(s, c, op.call, written);
        } else {
          OtherMoves(s, c, op, written);
        }
      case WantLock(_) => LockMoves(s, c);
      case Changed(_) => LockMoves(s, c);
      case Signalling(_) => LockMoves(s, c);
      case _ => OwnerMoves(s, c);
    }
  }

  lemma StartMoves(s: State, c: nat, op: Op)
    requires c < |s.clients| && StartNext(s, c, op).Some?
    ensures Moves(s, StartNext(s, c, op).value, c, StartedBy(Start(c, op)))
  {
  }

  lemma Balance(s: State, t: State, c: nat, started: Option<Call>)
    requires c < |s.clients| && Moves(s, t, c, started)
    ensures multiset(t.calls) + AllUnderway(t.clients) == multiset(s.calls) + AllUnderway(s.clients) + Bag(started)
  {
    var one, one' := Bag(Underway(s.clients[c])), Bag(Underway(t.clients[c]));
    UnderwayUpdate(s.clients, c, t.clients[c]);
    assert multiset(t.calls) + one' == multiset(s.calls) + one + Bag(started);
    Cancel(multiset(t.calls), AllUnderway(t.clients), one',
           multiset(s.calls), AllUnderway(s.clients), one, Bag(started));
  }

  lemma Cancel(calls': multiset<Call>, all': multiset<Call>, one': multiset<Call>,
               calls: multiset<Call>, all: multiset<Call>, one: multiset<Call>, started: multiset<Call>)
    requires calls' + one' == calls + one + started && all' + one == all + one'
    ensures calls' + all' == calls + all + started
  {
    forall x ensures (calls' + all')[x] == (calls + all + started)[x] {
      assert (calls' + one')[x] == (calls + one + started)[x] && (all' + one)[x] == (all + one')[x];
    }
  }

  lemma LoopMoves(s: State)
    requires s.writer.WTop?
    ensures WriterNext(s).value.calls == s.calls && WriterNext(s).value.clients == s.clients
  {
  }

  lemma WriterMoves(s: State)
    requires WriterNext(s).Some?
    ensures WriterNext(s).value.calls == s.calls && WriterNext(s).value.clients == s.clients
  {
    if s.writer.WTop? {
      LoopMoves(s);
    }
  }

  lemma StepBalance(s: State, a: Action)
    requires Do(s, a).Some?
    ensures var t := Do(s, a).value;
            multiset(t.calls) + AllUnderway(t.clients) == multiset(s.calls) + AllUnderway(s.clients) + Bag(StartedBy(a))
  {
    match a
    case WriterStep => WriterMoves(s);
    case Start(c, op) =>
      StartMoves(s, c, op);
      Balance(s, Do(s, a).value, c, StartedBy(a));
    case ClientStep(c) =>
      ClientMoves(s, c);
      Balance(s, Do(s, a).value, c, None);
  }

  lemma {:induction false} RunBalance(s: State, schedule: seq<Action>)
    requires Exec(s, schedule).Some?
    ensures var t := Exec(s, schedule).value;
            multiset(t.calls) + AllUnderway(t.clients) == multiset(s.calls) + AllUnderway(s.clients) + Started(schedule)
    decreases |schedule|
  {
    if schedule != [] {
      StepBalance(s, schedule[0]);
      RunBalance(Do(s, schedule[0]).value, schedule[1..]);
    }
  }

  lemma {:induction false} NothingUnderway(clients: seq<ClientPc>)
    requires forall c :: 0 <= c < |clients| ==> clients[c] == Idle
    ensures AllUnderway(clients) == multiset{}
  {
    if clients != [] {
      NothingUnderway(clients[1..]);
    }
  }

  /** The writes that were started are those recorded and those whose client has still to leave the lock. */
  lemma EveryWriteIsRecorded(n: nat, schedule: seq<Action>, t: State)
    requires n > 0 && Exec(Init(n), schedule) == Some(t)
    ensures multiset(t.calls) + AllUnderway(t.clients) == Started(schedule)
    ensures |t.calls| == |Started(schedule)| - |AllUnderway(t.clients)|
  {
    RunBalance(Init(n), schedule);
    NothingUnderway(Init(n).clients);
    assert |multiset(t.calls) + AllUnderway(t.clients)| == |t.calls| + |AllUnderway(t.clients)|;
  }

  // ---------------------------------------------------------------- a call that returns has taken effect

  /** Client c is in the call, and has not left its critical section. */
  predicate InCall(s: State, c: nat, op: Op) {
    c < |s.clients| && (s.clients[c].WantLock? || s.clients[c].Holding?) && s.clients[c].op == op
  }

  predicate Recorded(s: State, t: State, call: Call) {
    exists k :: |s.calls| <= k < |t.calls| && t.calls[k] == call
  }

  lemma StepInWrite(s: State, c: nat, call: Call, a: Action)
    requires InCall(s, c, Write(call)) && Do(s, a).Some?
    ensures var t := Do(s, a).value;
            s.calls <= t.calls && (InCall(t, c, Write(call)) || t.calls == s.calls + [call])
  {
    match a
    case WriterStep => WriterMoves(s);
    case Start(d, op) => StartMoves(s, d, op);
    case ClientStep(d) => ClientMoves(s, d);
  }

  /**
    A write that starts its work in s and has returned in t is recorded in between. So the calls are recorded in
    an order that agrees with their order in time.
    */
  lemma {:induction false} ReturnedWriteIsRecorded(s: State, c: nat, call: Call, schedule: seq<Action>)
    requires InCall(s, c, Write(call)) && Exec(s, schedule).Some?
    requires c < |Exec(s, schedule).value.clients| && Exec(s, schedule).value.clients[c] == Idle
    ensures Recorded(s, Exec(s, schedule).value, call)
    decreases |schedule|
  {
    if schedule != [] {
      var next, t := Do(s, schedule[0]).value, Exec(s, schedule).value;
      StepInWrite(s, c, call, schedule[0]);
      CallsContinue(next, schedule[1..]);
      if InCall(next, c, Write(call)) {
        ReturnedWriteIsRecorded(next, c, call, schedule[1..]);
        var k :| |next.calls| <= k < |t.calls| && t.calls[k] == call;
      } else {
        assert t.calls[|s.calls|] == call;
      }
    }
  }

  lemma {:induction false} CallsContinue(s: State, schedule: seq<Action>)
    requires Exec(s, schedule).Some?
    ensures s.calls <= Exec(s, schedule).value.calls
    decreases |schedule|
  {
    if schedule != [] {
      StepContinues(s, schedule[0]);
      CallsContinue(Do(s, schedule[0]).value, schedule[1..]);
    }
  }

  /** Once it has returned, and the writer has made its steps, the bytes of the call stand in the file in one piece. */
  lemma ReturnedWriteIsInFile(s: State, c: nat, call: Call, first: seq<Action>, t: State, second: seq<Action>, u: State)
    requires InCall(s, c, Write(call)) && Exec(s, first) == Some(t) && c < |t.clients| && t.clients[c] == Idle
    requires Reachable(t) && !WriterLeft(t.writer) && Exec(t, second) == Some(u)
    requires WriterSteps(second) >= 5 * |CallBytes(t.calls)| + 5
    ensures exists before: seq<byte> :: before + Flatten(call) <= u.file
  {
    ReturnedWriteIsRecorded(s, c, call, first);
    var k :| |s.calls| <= k < |t.calls| && t.calls[k] == call;
    WrittenInBoundedSteps(t, second, u);
    CallStandsIn(t.calls, k, u.file);
  }

  lemma PrefixOfPrefix(p: seq<byte>, q: seq<byte>, r: seq<byte>)
    requires p <= q && q <= r
    ensures p <= r
  {
  }

  lemma CallBytesNext(calls: seq<Call>, k: nat)
    requires k < |calls|
    ensures CallBytes(calls[..k + 1]) == CallBytes(calls[..k]) + Flatten(calls[k])
  {
    assert calls[..k + 1] == calls[..k] + [calls[k]];
    CallBytesSnoc(calls[..k], calls[k]);
  }

  lemma CallStandsIn(calls: seq<Call>, k: nat, file: seq<byte>)
    requires k < |calls| && CallBytes(calls) <= file
    ensures CallBytes(calls[..k]) + Flatten(calls[k]) <= file
  {
    CallBytesNext(calls, k);
    CallBytesPrefix(calls, k + 1);
    PrefixOfPrefix(CallBytes(calls[..k + 1]), CallBytes(calls), file);
  }

  lemma ClientInClose(s: State, c: nat)
    requires InCall(s, c, CloseOp) && ClientNext(s, c).Some?
    ensures var t := ClientNext(s, c).value; InCall(t, c, CloseOp) || t.finish == Close
  {
  }

  lemma StepInClose(s: State, c: nat, a: Action)
    requires InCall(s, c, CloseOp) && Do(s, a).Some?
    ensures var t := Do(s, a).value; InCall(t, c, CloseOp) || t.finish == Close
  {
    match a
    case WriterStep => WriterMoves(s);
    case Start(d, op) => StartMoves(s, d, op);
    case ClientStep(d) =>
      if d == c {
        ClientInClose(s, c);
      } else {
        ClientMoves(s, d);
      }
  }

  lemma InsideKeepsClose(s: State, c: nat, op: Op, written: nat)
    requires s.finish == Close && c < |s.clients| && InsideNext(s, c, op, written).Some?
    ensures InsideNext(s, c, op, written).value.finish == Close
  {
  }

  lemma ClientKeepsClose(s: State, c: nat)
    requires s.finish == Close && c < |s.clients| && ClientNext(s, c).Some?
    ensures ClientNext(s, c).value.finish == Close
  {
    if s.clients[c].Holding? {
      InsideKeepsClose(s, c, s.clients[c].op, s.clients[c].written);
    } else {
      assert ClientNext(s, c).value.finish == s.finish;
    }
  }

  lemma WriterKeepsClose(s: State)
    requires s.finish == Close && WriterNext(s).Some?
    ensures WriterNext(s).value.finish == Close
  {
  }

  lemma StepKeepsClose(s: State, a: Action)
    requires s.finish == Close && Do(s, a).Some?
    ensures Do(s, a).value.finish == Close
  {
    match a
    case WriterStep => WriterKeepsClose(s);
    case Start(_, _) =>
    case ClientStep(c) => ClientKeepsClose(s, c);
  }

  /** aio_close takes effect, also after aio_wait, and nothing takes it back. */
  lemma {:induction false} ReturnedCloseIsFinal(s: State, c: nat, schedule: seq<Action>)
    requires InCall(s, c, CloseOp) || s.finish == Close
    requires Exec(s, schedule).Some?
    requires c < |Exec(s, schedule).value.clients| && Exec(s, schedule).value.clients[c] == Idle
    ensures Exec(s, schedule).value.finish == Close
    decreases |schedule|
  {
    if schedule != [] {
      if s.finish == Close {
        StepKeepsClose(s, schedule[0]);
      } else {
        StepInClose(s, c, schedule[0]);
      }
      ReturnedCloseIsFinal(Do(s, schedule[0]).value, c, schedule[1..]);
    }
  }
}
