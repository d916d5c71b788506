/** The event dispatcher of product/zwave/src/api.c: three queues, a two-state machine, and handling
    that re-enters itself.  The machines of the single commands are arbitrary. */
module Api {
  import opened Options
  import opened StateMachines

  const S_IDLE := 0
  const S_RUNNING := 1
  const S_END := 9999

  /** CmdZWaveRequestNodeInfo, and the command of its late answers. */
  const REQUEST_NODE_INFO: Byte := 0x60
  const CONTROLLER_UPDATE: Byte := 0x49

  datatype ApiCall = ApiCall(api: Byte, param: seq<Byte>)

  /** A frame as far as the dispatcher looks at it. */
  datatype Reply = Reply(cmd: Byte, payload: seq<Byte>)

  datatype ApiEvent =
    | Beat
    | CallApi(call: ApiCall)
    | AsyncData(frame: Reply)
    | Error
    | Ack(frame: Reply)
    | Data(frame: Reply)

  /** The command machine that the state S_RUNNING keeps in `param`, with its own state. */
  datatype Sub = Sub(api: Byte, state: int)

  /** One step of a command machine: where it goes, and the calls it makes on the way. */
  datatype Move = Move(state: int, calls: seq<ApiCall>)

  /** The command machines: which command has one and where it starts, which of them have no states at
      all, what an ACK and what data make of the others, and when a second call may go out meanwhile. */
  datatype Machines = Machines(
    initial: Byte -> Option<int>,
    stateless: Byte -> bool,
    ackMove: (Sub, Reply) -> Move,
    dataMove: (Sub, Reply) -> Move,
    takes: (Sub, ApiCall) -> bool)
  {
    /** A machine without states stays where it is, whatever it is given. */
    function OnAck(s: Sub, f: Reply): Move {
      if stateless(s.api) then Move(s.state, []) else ackMove(s, f)
    }

    function OnData(s: Sub, f: Reply): Move {
      if stateless(s.api) then Move(s.state, []) else dataMove(s, f)
    }
  }

  /** `sent` is everything handed to session_send so far. */
  datatype Env = Env(
    state: int, sub: Option<Sub>,
    qRecv: seq<ApiEvent>, qSend: seq<ApiEvent>, qBack: seq<ApiEvent>,
    sent: seq<ApiCall>)

  // ---------------------------------------------------------------- handlers

  function Push(a: Env, e: ApiEvent): Env {
    a.(qSend := a.qSend + [e])
  }

  /** api_restore_api_call_event. */
  function Restore(a: Env): Env {
    if a.qBack == [] then a else Push(a.(qBack := a.qBack[1..]), a.qBack[0])
  }

  /** What ends a command: the oldest call put aside comes back, and a beat is posted. */
  function Released(a: Env): Env {
    Push(Restore(a), Beat)
  }

  /** api_call, once for each call. */
  function PushCalls(a: Env, cs: seq<ApiCall>): Env
    decreases |cs|
  {
    if cs == [] then a else PushCalls(Push(a, CallApi(cs[0])), cs[1..])
  }

  /** The command machine `s` takes a step. */
  function Advanced(a: Env, s: Sub, move: Move): Env {
    var b := PushCalls(a, move.calls);
    if move.state == S_END then Released(b).(sub := None, state := S_IDLE)
    else b.(sub := Some(Sub(s.api, move.state)), state := S_RUNNING)
  }

  /** Every event but an error while running. */
  function Plain(a: Env, e: ApiEvent, m: Machines): Env {
    if a.state == S_IDLE then
      if e.CallApi? then a.(sent := a.sent + [e.call], state := S_RUNNING) else a
    else if a.state == S_RUNNING then
      match e
      case CallApi(c) =>
        if a.sub.Some? && m.takes(a.sub.value, c) then a.(sent := a.sent + [c]) else a.(qBack := a.qBack + [e])
      case Ack(f) =>
        (match a.sub
         case Some(s) => Advanced(a, s, m.OnAck(s, f))
         case None =>
           var start := m.initial(f.cmd);
           if start.None? then a.(state := S_IDLE)
           else a.(sub := Some(Sub(f.cmd, start.value)), state := if m.stateless(f.cmd) then S_IDLE else S_RUNNING))
      case Data(f) =>
        (match a.sub
         case Some(s) => Advanced(a, s, m.OnData(s, f))
         case None => Released(a).(state := S_IDLE))
      case _ => a
    else a
  }

  /** The next event: received frames go first. */
  function Next(a: Env): Option<ApiEvent> {
    if a.qRecv != [] then Some(a.qRecv[0]) else if a.qSend != [] then Some(a.qSend[0]) else None
  }

  function Popped(a: Env): Env {
    if a.qRecv != [] then a.(qRecv := a.qRecv[1..]) else if a.qSend != [] then a.(qSend := a.qSend[1..]) else a
  }

  function Errors(q: seq<ApiEvent>): nat
    decreases |q|
  {
    if q == [] then 0 else (if q[0].Error? then 1 else 0) + Errors(q[1..])
  }

  function AllErrors(a: Env): nat {
    Errors(a.qRecv) + Errors(a.qSend) + Errors(a.qBack)
  }

  lemma {:induction false} ErrorsAppend(p: seq<ApiEvent>, q: seq<ApiEvent>)
    ensures Errors(p + q) == Errors(p) + Errors(q)
    decreases |p|
  {
    if p == [] {
      assert p + q == q;
    } else {
      assert (p + q)[1..] == p[1..] + q;
      ErrorsAppend(p[1..], q);
    }
  }

  lemma ReleasedErrors(a: Env)
    ensures AllErrors(Released(a)) == AllErrors(a)
  {
    ErrorsAppend(Restore(a).qSend, [Beat]);
    assert [Beat][1..] == [];
    if a.qBack != [] {
      ErrorsAppend(a.qSend, [a.qBack[0]]);
      assert [a.qBack[0]][1..] == [];
    }
  }

  lemma PoppedErrors(a: Env)
    ensures Next(a).Some? ==> AllErrors(a) == AllErrors(Popped(a)) + if Next(a).value.Error? then 1 else 0
  {
  }

  /** handlerOneEvent.  An error while running handles one more event before the state is set, with
      the state still S_RUNNING. */
  function Handled(a: Env, m: Machines): Env
    decreases AllErrors(a)
  {
    PoppedErrors(a);
    if Next(a).None? then a
    else if Next(a).value.Error? && a.state == S_RUNNING then
      ReleasedErrors(Popped(a));
      Handled(Released(Popped(a)), m).(state := S_IDLE)
    else Plain(Popped(a), Next(a).value, m)
  }

  // ---------------------------------------------------------------- what happens around it

  /** api_call, the two callbacks of the session layer, the send timer, and a turn of the beat timer
      or of api_step. */
  datatype Happening =
    | Called(call: ApiCall)
    | SentAck(frame: Reply)
    | SentError(timeout: bool)
    | Received(frame: Reply)
    | SendTimer
    | Turn

  /** api_is_async_data. */
  function IsAsync(a: Env, f: Reply): bool {
    !(a.state == S_RUNNING && a.sub.Some? &&
      (a.sub.value.api == f.cmd || (a.sub.value.api == REQUEST_NODE_INFO && f.cmd == CONTROLLER_UPDATE)))
  }

  function Happens(a: Env, h: Happening, m: Machines): Env {
    match h
    case Called(c) => Push(a, CallApi(c))
    case SentAck(f) => Push(a, Ack(f))
    case SentError(timeout) => if timeout then Push(Push(a, Error), Error) else Push(a, Error)
    case Received(f) => a.(qRecv := a.qRecv + [if IsAsync(a, f) then AsyncData(f) else Data(f)])
    case SendTimer => Push(a.(state := S_IDLE, sub := None), Beat)
    case Turn => Handled(a, m)
  }

  function Run(a: Env, hs: seq<Happening>, m: Machines): Env
    decreases |hs|
  {
    if hs == [] then a else Run(Happens(a, hs[0], m), hs[1..], m)
  }

  const INITIAL := Env(S_IDLE, None, [], [], [], [])

  // ---------------------------------------------------------------- calls are conserved

  function CallsIn(q: seq<ApiEvent>): multiset<ApiCall>
    decreases |q|
  {
    if q == [] then multiset{} else (if q[0].CallApi? then multiset{q[0].call} else multiset{}) + CallsIn(q[1..])
  }

  lemma {:induction false} CallsAppend(p: seq<ApiEvent>, q: seq<ApiEvent>)
    ensures CallsIn(p + q) == CallsIn(p) + CallsIn(q)
    decreases |p|
  {
    if p == [] {
      assert p + q == q;
    } else {
      assert (p + q)[1..] == p[1..] + q;
      CallsAppend(p[1..], q);
    }
  }

  lemma CallsOfOne(e: ApiEvent)
    ensures CallsIn([e]) == if e.CallApi? then multiset{e.call} else multiset{}
  {
    assert [e][1..] == [];
  }

  /** Every call that is anywhere. */
  function Calls(a: Env): multiset<ApiCall> {
    CallsIn(a.qRecv) + CallsIn(a.qSend) + CallsIn(a.qBack) + multiset(a.sent)
  }

  lemma PushKeeps(a: Env, e: ApiEvent)
    ensures Calls(Push(a, e)) == Calls(a) + if e.CallApi? then multiset{e.call} else multiset{}
  {
    hide CallsIn;
    CallsAppend(a.qSend, [e]);
    CallsOfOne(e);
  }

  lemma PoppedCalls(a: Env)
    requires Next(a).Some?
    ensures var e := Next(a).value;
            Calls(a) == Calls(Popped(a)) + if e.CallApi? then multiset{e.call} else multiset{}
  {
  }

  lemma ReleasedCalls(a: Env)
    ensures Calls(Released(a)) == Calls(a)
  {
    hide Calls, Push;
    PushKeeps(Restore(a), Beat);
    RestoreCalls(a);
  }

  lemma RestoreCalls(a: Env)
    ensures Calls(Restore(a)) == Calls(a)
  {
    if a.qBack != [] {
      PushKeeps(a.(qBack := a.qBack[1..]), a.qBack[0]);
    }
  }

  lemma SentCalls(a: Env, c: ApiCall)
    ensures Calls(a.(sent := a.sent + [c])) == Calls(a) + multiset{c}
  {
    hide CallsIn;
  }

  lemma BackCalls(a: Env, c: ApiCall)
    ensures Calls(a.(qBack := a.qBack + [CallApi(c)])) == Calls(a) + multiset{c}
  {
    hide CallsIn;
    CallsAppend(a.qBack, [CallApi(c)]);
    CallsOfOne(CallApi(c));
  }

  /** The state fields hold no calls. */
  lemma StateHoldsNoCalls(a: Env, state: int, sub: Option<Sub>)
    ensures Calls(a.(state := state, sub := sub)) == Calls(a)
  {
  }

  lemma {:induction false} PushCallsKeeps(a: Env, cs: seq<ApiCall>)
    ensures Calls(PushCalls(a, cs)) == Calls(a) + multiset(cs)
    decreases |cs|
  {
    hide Calls;
    if cs != [] {
      PushKeeps(a, CallApi(cs[0]));
      PushCallsKeeps(Push(a, CallApi(cs[0])), cs[1..]);
      assert cs == [cs[0]] + cs[1..];
    }
  }

  lemma AdvancedCalls(a: Env, s: Sub, move: Move)
    ensures Calls(Advanced(a, s, move)) == Calls(a) + multiset(move.calls)
  {
    hide Calls, Released, PushCalls;
    var b := PushCalls(a, move.calls);
    var r := Advanced(a, s, move);
    PushCallsKeeps(a, move.calls);
    ReleasedCalls(b);
    StateHoldsNoCalls(b, r.state, r.sub);
    StateHoldsNoCalls(Released(b), r.state, r.sub);
  }

  /** The calls the command machine makes when it is given `e`. */
  function Prompted(a: Env, e: ApiEvent, m: Machines): seq<ApiCall> {
    if a.state != S_RUNNING || a.sub.None? then []
    else if e.Ack? then m.OnAck(a.sub.value, e.frame).calls
    else if e.Data? then m.OnData(a.sub.value, e.frame).calls
    else []
  }

  /** The calls it makes in a turn, nested turns included. */
  function TurnPrompts(a: Env, m: Machines): seq<ApiCall>
    decreases AllErrors(a)
  {
    PoppedErrors(a);
    if Next(a).None? then []
    else if Next(a).value.Error? && a.state == S_RUNNING then
      ReleasedErrors(Popped(a));
      TurnPrompts(Released(Popped(a)), m)
    else Prompted(Popped(a), Next(a).value, m)
  }

  lemma PlainCalls(a: Env, e: ApiEvent, m: Machines)
    requires a.state == S_IDLE || a.state == S_RUNNING
    ensures Calls(Plain(a, e, m)) ==
            Calls(a) + multiset(Prompted(a, e, m)) + if e.CallApi? then multiset{e.call} else multiset{}
    ensures Plain(a, e, m).state == S_IDLE || Plain(a, e, m).state == S_RUNNING
  {
    hide Calls, Released, PushCalls;
    if a.sub.Some? {
      if e.Ack? {
        AdvancedCalls(a, a.sub.value, m.OnAck(a.sub.value, e.frame));
      } else if e.Data? {
        AdvancedCalls(a, a.sub.value, m.OnData(a.sub.value, e.frame));
      }
    }
    var r := Plain(a, e, m);
    ReleasedCalls(a);
    StateHoldsNoCalls(a, r.state, r.sub);
    StateHoldsNoCalls(Released(a), r.state, r.sub);
    if e.CallApi? {
      SentCalls(a, e.call);
      StateHoldsNoCalls(a.(sent := a.sent + [e.call]), r.state, r.sub);
      BackCalls(a, e.call);
    }
  }

  lemma {:induction false} HandledCalls(a: Env, m: Machines)
    requires a.state == S_IDLE || a.state == S_RUNNING
    ensures Calls(Handled(a, m)) == Calls(a) + multiset(TurnPrompts(a, m))
    ensures Handled(a, m).state == S_IDLE || Handled(a, m).state == S_RUNNING
    decreases AllErrors(a)
  {
    hide Calls, Plain, Released, Prompted;
    if Next(a).Some? {
      var e := Next(a).value;
      PoppedCalls(a);
      if e.Error? && a.state == S_RUNNING {
        var b := Released(Popped(a));
        PoppedErrors(a);
        ReleasedErrors(Popped(a));
        ReleasedCalls(Popped(a));
        ReleasedState(Popped(a));
        HandledCalls(b, m);
        StateHoldsNoCalls(Handled(b, m), S_IDLE, Handled(b, m).sub);
      } else {
        PlainCalls(Popped(a), e, m);
      }
    }
  }

  lemma ReleasedState(a: Env)
    ensures Released(a).state == a.state && Released(a).sub == a.sub && Released(a).sent == a.sent
    ensures Released(a).qRecv == a.qRecv
  {
  }

  /** The calls made by a happening: from outside, or by the machine that runs. */
  function Made(a: Env, h: Happening, m: Machines): multiset<ApiCall> {
    match h
    case Called(c) => multiset{c}
    case Turn => multiset(TurnPrompts(a, m))
    case _ => multiset{}
  }

  lemma HappensCalls(a: Env, h: Happening, m: Machines)
    requires a.state == S_IDLE || a.state == S_RUNNING
    ensures Calls(Happens(a, h, m)) == Calls(a) + Made(a, h, m)
    ensures Happens(a, h, m).state == S_IDLE || Happens(a, h, m).state == S_RUNNING
  {
    hide Calls, Handled, CallsIn, TurnPrompts;
    match h
    case Called(c) => PushKeeps(a, CallApi(c));
    case SentAck(f) => PushKeeps(a, Ack(f));
    case SentError(timeout) =>
      PushKeeps(a, Error);
      PushKeeps(Push(a, Error), Error);
    case Received(f) => ReceivedCalls(a, if IsAsync(a, f) then AsyncData(f) else Data(f));
    case SendTimer =>
      StateHoldsNoCalls(a, S_IDLE, None);
      PushKeeps(a.(state := S_IDLE, sub := None), Beat);
    case Turn => HandledCalls(a, m);
  }

  lemma ReceivedCalls(a: Env, e: ApiEvent)
    requires !e.CallApi?
    ensures Calls(a.(qRecv := a.qRecv + [e])) == Calls(a)
  {
    CallsAppend(a.qRecv, [e]);
    CallsOfOne(e);
  }

  /** The calls made during a run. */
  function AllMade(a: Env, hs: seq<Happening>, m: Machines): multiset<ApiCall>
    decreases |hs|
  {
    if hs == [] then multiset{} else Made(a, hs[0], m) + AllMade(Happens(a, hs[0], m), hs[1..], m)
  }

  /** Main result: over every run, whatever the command machines do, each call made, by a caller or by
      a machine, is in exactly one place, a queue or handed to session_send, and the main state is
      S_IDLE or S_RUNNING. */
  lemma {:induction false} CallsConserved(a: Env, hs: seq<Happening>, m: Machines)
    requires a.state == S_IDLE || a.state == S_RUNNING
    ensures Calls(Run(a, hs, m)) == Calls(a) + AllMade(a, hs, m)
    ensures Run(a, hs, m).state == S_IDLE || Run(a, hs, m).state == S_RUNNING
    decreases |hs|
  {
    hide Calls, Happens, Made;
    if hs != [] {
      HappensCalls(a, hs[0], m);
      CallsConserved(Happens(a, hs[0], m), hs[1..], m);
    }
  }

  // ---------------------------------------------------------------- what the queues hold

  /** Frames wait only in qRecv, calls put aside only in qBack. */
  ghost predicate Shaped(a: Env) {
    && (a.state == S_IDLE || a.state == S_RUNNING)
    && (forall e :: e in a.qRecv ==> e.AsyncData? || e.Data?)
    && (forall e :: e in a.qSend ==> !e.AsyncData? && !e.Data?)
    && (forall e :: e in a.qBack ==> e.CallApi?)
  }

  lemma PlainShaped(a: Env, e: ApiEvent, m: Machines)
    requires Shaped(a)
    ensures Shaped(Plain(a, e, m))
  {
    hide Released, PushCalls;
    ReleasedShaped(a);
    if a.state == S_RUNNING && a.sub.Some? {
      if e.Ack? {
        AdvancedShaped(a, a.sub.value, m.OnAck(a.sub.value, e.frame));
      } else if e.Data? {
        AdvancedShaped(a, a.sub.value, m.OnData(a.sub.value, e.frame));
      }
    }
  }

  lemma {:induction false} PushCallsShaped(a: Env, cs: seq<ApiCall>)
    requires Shaped(a)
    ensures Shaped(PushCalls(a, cs))
    decreases |cs|
  {
    if cs != [] {
      PushCallsShaped(Push(a, CallApi(cs[0])), cs[1..]);
    }
  }

  lemma AdvancedShaped(a: Env, s: Sub, move: Move)
    requires Shaped(a)
    ensures Shaped(Advanced(a, s, move))
  {
    hide Released, PushCalls;
    PushCallsShaped(a, move.calls);
    ReleasedShaped(PushCalls(a, move.calls));
  }

  lemma ReleasedShaped(a: Env)
    requires Shaped(a)
    ensures Shaped(Released(a)) && Released(a).state == a.state
  {
    var r := Released(a);
    if a.qBack != [] {
      assert a.qBack[0] in a.qBack;
      assert r.qSend == a.qSend + [a.qBack[0]] + [Beat];
    }
    forall e | e in r.qBack
      ensures e.CallApi?
    {
      assert e in a.qBack;
    }
  }

  lemma {:induction false} HandledShaped(a: Env, m: Machines)
    requires Shaped(a)
    ensures Shaped(Handled(a, m))
    decreases AllErrors(a)
  {
    hide Plain, Released;
    if Next(a).Some? {
      if Next(a).value.Error? && a.state == S_RUNNING {
        PoppedErrors(a);
        ReleasedErrors(Popped(a));
        ReleasedShaped(Popped(a));
        HandledShaped(Released(Popped(a)), m);
      } else {
        PlainShaped(Popped(a), Next(a).value, m);
      }
    }
  }

  lemma {:induction false} RunShaped(a: Env, hs: seq<Happening>, m: Machines)
    requires Shaped(a)
    ensures Shaped(Run(a, hs, m))
    decreases |hs|
  {
    hide Handled;
    if hs != [] {
      if hs[0].Turn? {
        HandledShaped(a, m);
      }
      assert Shaped(Happens(a, hs[0], m));
      RunShaped(Happens(a, hs[0], m), hs[1..], m);
    }
  }

  lemma {:induction false} NoCalls(q: seq<ApiEvent>)
    requires forall e :: e in q ==> !e.CallApi?
    ensures CallsIn(q) == multiset{}
    decreases |q|
  {
    if q != [] {
      NoCalls(q[1..]);
    }
  }

  /** From the start on: qSend, qSendBack and what was handed over are all the calls made. */
  lemma EveryCallIsSomewhere(hs: seq<Happening>, m: Machines)
    ensures var a := Run(INITIAL, hs, m);
            CallsIn(a.qSend) + CallsIn(a.qBack) + multiset(a.sent) == AllMade(INITIAL, hs, m)
  {
    hide Run, CallsIn, AllMade;
    var a := Run(INITIAL, hs, m);
    CallsConserved(INITIAL, hs, m);
    RunShaped(INITIAL, hs, m);
    NoCalls(a.qRecv);
    NoCalls([]);
    assert Calls(INITIAL) == multiset{};
    assert Calls(a) == CallsIn(a.qRecv) + CallsIn(a.qSend) + CallsIn(a.qBack) + multiset(a.sent);
    assert Calls(a) == AllMade(INITIAL, hs, m);
  }

  // ---------------------------------------------------------------- what an error handles

  function Beats(n: nat): seq<ApiEvent> {
    seq(n, _ => Beat)
  }

  /** What `n` errors bring to the sending queue: the calls put aside, oldest first, each with a beat. */
  function Given(back: seq<ApiEvent>, n: nat): seq<ApiEvent>
    decreases n
  {
    if n == 0 then [] else if back == [] then [Beat] + Given([], n - 1) else [back[0], Beat] + Given(back[1..], n - 1)
  }

  /** What they leave aside. */
  function Left(back: seq<ApiEvent>, n: nat): seq<ApiEvent> {
    if n <= |back| then back[n..] else []
  }

  /** `n` errors stand in front of the sending queue, and no more. */
  ghost predicate ErrorsFirst(q: seq<ApiEvent>, n: nat) {
    n <= |q| && (forall i :: 0 <= i < n ==> q[i].Error?) && (n < |q| ==> !q[n].Error?)
  }

  /** The sending queue once those errors are through. */
  function Behind(a: Env, n: nat): seq<ApiEvent>
    requires n <= |a.qSend|
  {
    a.qSend[n..] + Given(a.qBack, n)
  }

  lemma {:induction false} ErrorsUnwind(a: Env, n: nat, m: Machines)
    requires a.state == S_RUNNING && a.qRecv == [] && ErrorsFirst(a.qSend, n) && a.qSend != []
    requires forall e :: e in a.qBack ==> e.CallApi?
    ensures var q := Behind(a, n);
            && q != [] && !q[0].Error?
            && Handled(a, m).(state := S_IDLE) ==
               Plain(a.(qSend := q[1..], qBack := Left(a.qBack, n)), q[0], m).(state := S_IDLE)
    ensures n > 0 ==> Handled(a, m).state == S_IDLE
    decreases n
  {
    hide Plain, Released, Given, Behind, Left, Handled;
    if n == 0 {
      NoErrorFirst(a, m);
    } else {
      var b := Released(Popped(a));
      ErrorReleases(a, n);
      ErrorIsNested(a, m);
      ErrorsUnwind(b, n - 1, m);
    }
  }

  lemma NoErrorFirst(a: Env, m: Machines)
    requires a.state == S_RUNNING && a.qRecv == [] && a.qSend != [] && !a.qSend[0].Error?
    ensures Behind(a, 0) == a.qSend && Left(a.qBack, 0) == a.qBack
    ensures Handled(a, m) == Plain(a.(qSend := a.qSend[1..]), a.qSend[0], m)
  {
    hide Plain;
    GivenNone(a.qBack);
  }

  lemma ErrorIsNested(a: Env, m: Machines)
    requires a.state == S_RUNNING && Next(a) == Some(Error)
    ensures Handled(a, m) == Handled(Released(Popped(a)), m).(state := S_IDLE)
  {
    hide Released;
    PoppedErrors(a);
    ReleasedErrors(Popped(a));
  }

  /** One error taken off the front. */
  lemma ErrorReleases(a: Env, n: nat)
    requires a.qRecv == [] && ErrorsFirst(a.qSend, n) && n > 0
    requires forall e :: e in a.qBack ==> e.CallApi?
    ensures var b := Released(Popped(a));
            && b.(qSend := a.qSend, qBack := a.qBack) == a && b.qSend != []
            && ErrorsFirst(b.qSend, n - 1) && Behind(b, n - 1) == Behind(a, n)
            && (forall e :: e in b.qBack ==> e.CallApi?) && Left(b.qBack, n - 1) == Left(a.qBack, n)
  {
    hide Given;
    var b := Released(Popped(a));
    var first := if a.qBack == [] then [Beat] else [a.qBack[0], Beat];
    var back := if a.qBack == [] then [] else a.qBack[1..];
    assert b.qSend == a.qSend[1..] + first && b.qBack == back;
    assert b.qSend[n - 1..] == a.qSend[n..] + first;
    assert (a.qSend[n..] + first) + Given(back, n - 1) == a.qSend[n..] + (first + Given(back, n - 1));
    assert Given(a.qBack, n) == first + Given(back, n - 1) by {
      GivenUnfolds(a.qBack, n);
    }
    assert forall i :: 0 <= i < n - 1 ==> b.qSend[i] == a.qSend[i + 1];
    assert n < |a.qSend| ==> b.qSend[n - 1] == a.qSend[n];
    assert n == |a.qSend| ==> b.qSend[n - 1] == first[0];
    assert a.qBack != [] ==> a.qBack[0] in a.qBack;
  }

  lemma GivenNone(back: seq<ApiEvent>)
    ensures Given(back, 0) == []
  {
  }

  lemma GivenUnfolds(back: seq<ApiEvent>, n: nat)
    requires n > 0
    ensures Given(back, n)
         == if back == [] then [Beat] + Given([], n - 1) else [back[0], Beat] + Given(back[1..], n - 1)
  {
  }

  /** Main result: however many errors have queued up, the first of them handles them all and exactly
      one event more, the first behind them, as if the command were still running; then it is idle. */
  lemma ErrorsHandleOne(a: Env, n: nat, m: Machines)
    requires Shaped(a) && a.state == S_RUNNING && a.qRecv == [] && ErrorsFirst(a.qSend, n) && n > 0
    ensures var q := Behind(a, n);
            && q != [] && !q[0].Error?
            && Handled(a, m) ==
               Plain(a.(qSend := q[1..], qBack := Left(a.qBack, n)), q[0], m).(state := S_IDLE)
  {
    hide Plain, Handled, Behind;
    ErrorsUnwind(a, n, m);
  }

  // ---------------------------------------------------------------- calls put aside

  ghost predicate AllErrorsIn(q: seq<ApiEvent>) {
    forall i :: 0 <= i < |q| ==> q[i].Error?
  }

  lemma {:induction false} GivenBeats(n: nat)
    ensures Given([], n) == Beats(n)
    decreases n
  {
    if n > 0 {
      GivenBeats(n - 1);
    }
  }

  lemma GivenOne(e: ApiEvent, n: nat)
    requires n > 0
    ensures Given([e], n) == [e] + Beats(n)
  {
    GivenBeats(n - 1);
    assert [e][1..] == [];
    assert Beats(n) == [Beat] + Beats(n - 1);
  }

  /** With nothing but errors behind the first, the call put aside is handled in the same turn: it
      goes out if the machine takes it, and back aside if not. */
  lemma RestoredAtOnce(a: Env, c: ApiCall, rest: seq<ApiEvent>, m: Machines)
    requires Shaped(a) && a.state == S_RUNNING && a.qRecv == []
    requires a.qSend == [Error] + rest && a.qBack == [CallApi(c)] && AllErrorsIn(rest)
    ensures var taken := a.sub.Some? && m.takes(a.sub.value, c);
            Handled(a, m) ==
            a.(state := S_IDLE, qSend := Beats(|rest| + 1), qBack := if taken then [] else [CallApi(c)],
               sent := if taken then a.sent + [c] else a.sent)
  {
    var n := |rest| + 1;
    assert forall i :: 0 <= i < n ==> a.qSend[i].Error?;
    GivenOne(CallApi(c), n);
    assert Behind(a, n) == [CallApi(c)] + Beats(n);
    assert Left(a.qBack, n) == [];
    ErrorsHandleOne(a, n, m);
  }

  lemma {:induction false} PushCallsAppends(a: Env, cs: seq<ApiCall>)
    ensures a.qSend <= PushCalls(a, cs).qSend
    decreases |cs|
  {
    if cs != [] {
      PushCallsAppends(Push(a, CallApi(cs[0])), cs[1..]);
    }
  }

  lemma PlainAppends(a: Env, e: ApiEvent, m: Machines)
    ensures a.qSend <= Plain(a, e, m).qSend
  {
    hide PushCalls;
    if a.sub.Some? && e.Ack? {
      PushCallsAppends(a, m.OnAck(a.sub.value, e.frame).calls);
    } else if a.sub.Some? && e.Data? {
      PushCallsAppends(a, m.OnData(a.sub.value, e.frame).calls);
    }
  }

  /** With another event behind the errors, that event is handled, and the call waits behind all that
      came before it. */
  lemma RestoredBehind(a: Env, c: ApiCall, rest: seq<ApiEvent>, k: nat, m: Machines)
    requires Shaped(a) && a.state == S_RUNNING && a.qRecv == []
    requires a.qSend == [Error] + rest && a.qBack == [CallApi(c)] && ErrorsFirst(rest, k) && k < |rest|
    ensures rest[k + 1..] + [CallApi(c)] <= Handled(a, m).qSend && Handled(a, m).state == S_IDLE
  {
    hide Handled, Plain, Behind, Beats;
    var q := Behind(a, k + 1);
    BehindOthers(a, c, rest, k);
    ErrorsHandleOne(a, k + 1, m);
    PlainAppends(a.(qSend := q[1..], qBack := Left(a.qBack, k + 1)), q[0], m);
  }

  lemma BehindOthers(a: Env, c: ApiCall, rest: seq<ApiEvent>, k: nat)
    requires a.qSend == [Error] + rest && a.qBack == [CallApi(c)] && ErrorsFirst(rest, k) && k < |rest|
    ensures ErrorsFirst(a.qSend, k + 1) && Behind(a, k + 1) != []
    ensures Behind(a, k + 1)[1..] == rest[k + 1..] + [CallApi(c)] + Beats(k + 1)
  {
    hide Given, Beats;
    assert a.qSend[k + 1] == rest[k];
    assert forall i :: 0 < i < k + 1 ==> a.qSend[i] == rest[i - 1];
    GivenOne(CallApi(c), k + 1);
    assert a.qSend[k + 1..] == [rest[k]] + rest[k + 1..];
    assert Behind(a, k + 1) == [rest[k]] + (rest[k + 1..] + [CallApi(c)] + Beats(k + 1));
  }

  lemma {:induction false} FirstOther(q: seq<ApiEvent>) returns (k: nat)
    requires !AllErrorsIn(q)
    ensures k < |q| && ErrorsFirst(q, k)
    decreases |q|
  {
    if !q[0].Error? {
      k := 0;
    } else {
      k := FirstOther(q[1..]);
      k := k + 1;
      assert forall i :: 0 < i < k ==> q[i] == q[1..][i - 1];
    }
  }

  /** Main result: a call put aside behind a command that fails waits in the sending queue again if
      and only if some event behind the error is not another error.  Otherwise the nested handling
      meets it while the state is still S_RUNNING. */
  lemma RestoredByError(a: Env, c: ApiCall, rest: seq<ApiEvent>, m: Machines)
    requires Shaped(a) && a.state == S_RUNNING && a.qRecv == []
    requires a.qSend == [Error] + rest && a.qBack == [CallApi(c)]
    ensures CallApi(c) in Handled(a, m).qSend <==> !AllErrorsIn(rest)
    ensures a.sub.None? || !m.takes(a.sub.value, c) ==>
              (AllErrorsIn(rest) <==> Handled(a, m) == a.(state := S_IDLE, qSend := Beats(|rest| + 1)))
  {
    hide Handled;
    if AllErrorsIn(rest) {
      RestoredAtOnce(a, c, rest, m);
    } else {
      var k := FirstOther(rest);
      RestoredBehind(a, c, rest, k, m);
      assert Handled(a, m).qSend[|rest[k + 1..]|] == CallApi(c);
    }
  }

  /** Where the calls that errors bring back stand: each before its beat, in order. */
  lemma {:induction false} GivenPlaces(back: seq<ApiEvent>, n: nat, i: nat)
    requires i < n && i < |back|
    ensures |Given(back, n)| == n + (if n < |back| then n else |back|)
    ensures Given(back, n)[2 * i] == back[i] && Given(back, n)[2 * i + 1] == Beat
    decreases n
  {
    if i > 0 {
      GivenPlaces(back[1..], n - 1, i - 1);
    } else {
      GivenLength(back[1..], n - 1);
    }
  }

  lemma {:induction false} GivenLength(back: seq<ApiEvent>, n: nat)
    ensures |Given(back, n)| == n + (if n < |back| then n else |back|)
    decreases n
  {
    if n > 0 {
      GivenLength(if back == [] then [] else back[1..], n - 1);
    }
  }

  /** Main result: `n` errors bring the `n` oldest calls back from aside, each with a beat, behind what
      waits.  If anything but errors waited, all of them stay in the sending queue; if nothing did, the
      oldest is handled in the same turn, going out or aside again, and the others stay in the queue. */
  lemma RestoredByErrors(a: Env, n: nat, m: Machines)
    requires Shaped(a) && a.state == S_RUNNING && a.qRecv == [] && ErrorsFirst(a.qSend, n) && n > 0
    ensures var b, given, aside := Handled(a, m), Given(a.qBack, n), Left(a.qBack, n);
            && given != []
            && (n < |a.qSend| ==> a.qSend[n + 1..] + given <= b.qSend)
            && (n == |a.qSend| <==> b.qSend == given[1..])
            && (n == |a.qSend| && a.qBack == [] ==> b.qBack == [] && b.sent == a.sent)
            && (n == |a.qSend| && a.qBack != [] ==>
                  var c := a.qBack[0];
                  && c.CallApi?
                  && if a.sub.Some? && m.takes(a.sub.value, c.call)
                     then b.qBack == aside && b.sent == a.sent + [c.call]
                     else b.qBack == aside + [c] && b.sent == a.sent)
  {
    hide Handled, Given;
    var given := Given(a.qBack, n);
    var q := Behind(a, n);
    ErrorsHandleOne(a, n, m);
    GivenFirst(a.qBack, n);
    if n < |a.qSend| {
      assert q == a.qSend[n..] + given && q[0] == a.qSend[n] && q[1..] == a.qSend[n + 1..] + given;
      hide Plain;
      PlainAppends(a.(qSend := q[1..], qBack := Left(a.qBack, n)), q[0], m);
      assert |Handled(a, m).qSend| >= |given|;
    } else {
      assert a.qSend[n..] == [] && q == given;
      assert a.qBack != [] ==> a.qBack[0] in a.qBack;
    }
  }

  lemma GivenFirst(back: seq<ApiEvent>, n: nat)
    requires n > 0
    ensures Given(back, n) != [] && Given(back, n)[0] == if back == [] then Beat else back[0]
  {
  }

  /** No call waits in either queue of the dispatcher. */
  ghost predicate NoCallWaits(a: Env) {
    (forall e :: e in a.qRecv ==> !e.CallApi?) && (forall e :: e in a.qSend ==> !e.CallApi?)
  }

  /** An idle dispatcher with no call waiting never takes a call from aside: over every run in which no
      call is made from outside, what is put aside stays, and nothing goes out. */
  lemma {:induction false} PutAsideStays(a: Env, hs: seq<Happening>, m: Machines)
    requires a.state == S_IDLE && NoCallWaits(a)
    requires forall h :: h in hs ==> !h.Called?
    ensures var b := Run(a, hs, m);
            b.state == S_IDLE && NoCallWaits(b) && b.qBack == a.qBack && b.sent == a.sent
    decreases |hs|
  {
    if hs != [] {
      var b := Happens(a, hs[0], m);
      assert b.state == S_IDLE && NoCallWaits(b) && b.qBack == a.qBack && b.sent == a.sent;
      PutAsideStays(b, hs[1..], m);
    }
  }

  /** So a failed transmission loses a call put aside that the machine does not take: it stays aside
      over every run in which no other call is made, whether the frame was refused or, as a timeout
      does, left two errors. */
  lemma FailureStrands(a: Env, c: ApiCall, timeout: bool, hs: seq<Happening>, m: Machines)
    requires a.state == S_RUNNING && a.qRecv == [] && a.qSend == [] && a.qBack == [CallApi(c)]
    requires a.sub.None? || !m.takes(a.sub.value, c)
    requires forall h :: h in hs ==> !h.Called?
    ensures Run(a, [SentError(timeout), Turn], m) == a.(state := S_IDLE, qSend := Beats(if timeout then 2 else 1))
    ensures var b := Run(a, [SentError(timeout), Turn] + hs, m); b.qBack == [CallApi(c)] && b.sent == a.sent
  {
    TwoHappen(a, SentError(timeout), Turn, m);
    hide Handled;
    var b := Happens(a, SentError(timeout), m);
    var rest := if timeout then [Error] else [];
    assert b == a.(qSend := [Error] + rest);
    RestoredAtOnce(b, c, rest, m);
    var all := [SentError(timeout), Turn] + hs;
    assert all[1..] == [Turn] + hs && all[1..][1..] == hs;
    assert Run(a, all, m) == Run(b, all[1..], m) == Run(Handled(b, m), hs, m);
    PutAsideStays(Handled(b, m), hs, m);
  }

  function Turns(n: nat): seq<Happening> {
    seq(n, _ => Turn)
  }

  /** An idle dispatcher takes up the first call that waits, and passes over everything before it. */
  lemma {:induction false} IdleTakesFirstCall(
    a: Env, c: ApiCall, front: seq<ApiEvent>, rest: seq<ApiEvent>, m: Machines)
    requires a.state == S_IDLE && a.qSend == front + [CallApi(c)] + rest
    requires forall e :: e in a.qRecv || e in front ==> !e.CallApi?
    ensures Run(a, Turns(|a.qRecv| + |front| + 1), m)
         == a.(state := S_RUNNING, qRecv := [], qSend := rest, sent := a.sent + [c])
    decreases |a.qRecv| + |front|
  {
    var n := |a.qRecv| + |front|;
    assert Turns(n + 1)[1..] == Turns(n);
    if a.qRecv != [] {
      assert a.qRecv[0] in a.qRecv;
      IdleTakesFirstCall(a.(qRecv := a.qRecv[1..]), c, front, rest, m);
    } else if front != [] {
      assert a.qSend[0] == front[0] && a.qSend[1..] == front[1..] + [CallApi(c)] + rest;
      IdleTakesFirstCall(a.(qSend := a.qSend[1..]), c, front[1..], rest, m);
    } else {
      assert a.qSend[0] == CallApi(c) && a.qSend[1..] == rest;
    }
  }

  /** The next event ends the command machine with `calls` made on the way. */
  ghost predicate Ends(a: Env, calls: seq<ApiCall>, m: Machines) {
    a.state == S_RUNNING && a.sub.Some? && Next(a).Some? &&
    match Next(a).value
    case Ack(f) => m.OnAck(a.sub.value, f) == Move(S_END, calls)
    case Data(f) => m.OnData(a.sub.value, f) == Move(S_END, calls)
    case _ => false
  }

  /** The end of a command brings the oldest call put aside back behind everything that waits. */
  lemma CompletionReleases(a: Env, c: ApiCall, more: seq<ApiEvent>, calls: seq<ApiCall>, m: Machines)
    requires Ends(a, calls, m) && a.qBack == [CallApi(c)] + more
    ensures var p := Popped(a);
            Handled(a, m) == p.(state := S_IDLE, sub := None, qBack := more,
                                qSend := PushCalls(p, calls).qSend + [CallApi(c), Beat])
  {
    hide PushCalls;
    var p := Popped(a);
    PushCallsState(p, calls);
    assert Handled(a, m) == Plain(p, Next(a).value, m);
    var q := PushCalls(p, calls).qSend;
    assert q + [CallApi(c)] + [Beat] == q + [CallApi(c), Beat];
    assert a.qBack[1..] == more;
  }

  /** Whereas the end of a command hands the next call put aside on: with no other call in front of it,
      it goes out as soon as everything else that waits has passed. */
  lemma RestoredByCompletion(a: Env, c: ApiCall, more: seq<ApiEvent>, m: Machines)
    requires Ends(a, [], m) && NoCallWaits(a) && a.qBack == [CallApi(c)] + more
    ensures Run(a, Turns(|a.qRecv| + |a.qSend| + 1), m) == Env(S_RUNNING, None, [], [Beat], more, a.sent + [c])
  {
    hide Handled;
    var p := Popped(a);
    CompletionReleases(a, c, more, [], m);
    assert forall e :: e in p.qRecv ==> e in a.qRecv;
    assert forall e :: e in p.qSend ==> e in a.qSend;
    assert p.qSend + [CallApi(c)] + [Beat] == p.qSend + [CallApi(c), Beat];
    IdleTakesFirstCall(Handled(a, m), c, p.qSend, [Beat], m);
    var n := |p.qRecv| + |p.qSend| + 1;
    assert n == |a.qRecv| + |a.qSend|;
    assert Turns(n + 1)[1..] == Turns(n);
  }

  // ---------------------------------------------------------------- machines left behind

  /** A command machine is attached though no command runs. */
  predicate Stale(a: Env) {
    a.state == S_IDLE && a.sub.Some?
  }

  /** An error is handled, and a machine is attached afterwards. */
  predicate ErrorLeaves(a: Env, h: Happening, m: Machines) {
    h.Turn? && a.state == S_RUNNING && Next(a) == Some(Error) && Handled(a, m).sub.Some?
  }

  /** An ACK attaches a machine without states, which looks to running_transition_ack like no machine. */
  predicate AckLeaves(a: Env, h: Happening, m: Machines) {
    h.Turn? && a.state == S_RUNNING && a.sub.None? && Next(a).Some? && Next(a).value.Ack? &&
    m.initial(Next(a).value.frame.cmd).Some? && m.stateless(Next(a).value.frame.cmd)
  }

  /** The send timer clears the machine, and a call that is taken up ends idleness. */
  predicate Disturbs(a: Env, h: Happening) {
    h.SendTimer? || (h.Turn? && Next(a).Some? && Next(a).value.CallApi?)
  }

  predicate Undisturbed(a: Env, hs: seq<Happening>, m: Machines)
    decreases |hs|
  {
    hs == [] || (!Disturbs(a, hs[0]) && Undisturbed(Happens(a, hs[0], m), hs[1..], m))
  }

  /** Some error or ACK of the run has left a machine attached, with nothing to disturb it since. */
  predicate LeftAttached(a: Env, hs: seq<Happening>, m: Machines)
    decreases |hs|
  {
    hs != [] &&
    var b := Happens(a, hs[0], m);
    ((ErrorLeaves(a, hs[0], m) || AckLeaves(a, hs[0], m)) && Undisturbed(b, hs[1..], m)) ||
    LeftAttached(b, hs[1..], m)
  }

  lemma StaleStep(a: Env, h: Happening, m: Machines)
    requires a.state == S_IDLE || a.state == S_RUNNING
    ensures Stale(Happens(a, h, m))
            <==> (Stale(a) && !Disturbs(a, h)) || ErrorLeaves(a, h, m) || AckLeaves(a, h, m)
  {
    hide PushCalls, Released;
    if h.Turn? && Next(a).Some? {
      if Next(a).value.Error? && a.state == S_RUNNING {
        ReleasedErrors(Popped(a));
        PoppedErrors(a);
      } else {
        PlainStale(Popped(a), Next(a).value, m);
      }
    }
  }

  lemma PlainStale(a: Env, e: ApiEvent, m: Machines)
    requires a.state == S_IDLE || a.state == S_RUNNING
    ensures Stale(Plain(a, e, m)) <==>
            if a.state == S_IDLE then a.sub.Some? && !e.CallApi?
            else a.sub.None? && e.Ack? && m.initial(e.frame.cmd).Some? && m.stateless(e.frame.cmd)
  {
    hide PushCalls, Released;
    if a.sub.Some? && e.Ack? {
      PushCallsState(a, m.OnAck(a.sub.value, e.frame).calls);
    } else if a.sub.Some? && e.Data? {
      PushCallsState(a, m.OnData(a.sub.value, e.frame).calls);
    }
    ReleasedState(a);
  }

  lemma {:induction false} PushCallsState(a: Env, cs: seq<ApiCall>)
    ensures PushCalls(a, cs).(qSend := a.qSend) == a
    decreases |cs|
  {
    if cs != [] {
      PushCallsState(Push(a, CallApi(cs[0])), cs[1..]);
    }
  }

  /** Main result: over every run, a machine is attached while the dispatcher is idle if and only if an
      error, or the ACK that attached it without its having any states, has left it there and since then
      no call was taken up and no send timer came. */
  lemma {:induction false} StaleExactly(a: Env, hs: seq<Happening>, m: Machines)
    requires a.state == S_IDLE || a.state == S_RUNNING
    ensures Stale(Run(a, hs, m)) <==> (Stale(a) && Undisturbed(a, hs, m)) || LeftAttached(a, hs, m)
    decreases |hs|
  {
    hide Happens, Stale, ErrorLeaves, AckLeaves, Disturbs;
    if hs != [] {
      HappensCalls(a, hs[0], m);
      StaleStep(a, hs[0], m);
      StaleExactly(Happens(a, hs[0], m), hs[1..], m);
    }
  }

  /** Which errors do: those that meet a running machine, unless the event behind them is an ACK that
      ends it, and those that meet none, if the event behind them is an ACK that starts one. */
  lemma ErrorLeavesExactly(a: Env, n: nat, m: Machines)
    requires Shaped(a) && a.state == S_RUNNING && a.qRecv == [] && ErrorsFirst(a.qSend, n) && n > 0
    ensures var e := Behind(a, n)[0];
            ErrorLeaves(a, Turn, m) <==>
            if a.sub.Some? then e.Ack? ==> m.OnAck(a.sub.value, e.frame).state != S_END
            else e.Ack? && m.initial(e.frame.cmd).Some?
  {
    hide Handled, PushCalls, Released;
    var q := Behind(a, n);
    var b := a.(qSend := q[1..], qBack := Left(a.qBack, n));
    ErrorsHandleOne(a, n, m);
    assert !q[0].Data? by {
      GivenHoldsCalls(a.qBack, n);
    }
    if a.sub.Some? && q[0].Ack? {
      PushCallsState(b, m.OnAck(a.sub.value, q[0].frame).calls);
    }
  }

  lemma {:induction false} GivenHoldsCalls(back: seq<ApiEvent>, n: nat)
    requires forall e :: e in back ==> e.CallApi?
    ensures forall e :: e in Given(back, n) ==> e.CallApi? || e.Beat?
    decreases n
  {
    if n > 0 {
      GivenHoldsCalls(if back == [] then [] else back[1..], n - 1);
    }
  }

  lemma {:induction false} RunAppend(a: Env, hs: seq<Happening>, gs: seq<Happening>, m: Machines)
    ensures Run(a, hs + gs, m) == Run(Run(a, hs, m), gs, m)
    decreases |hs|
  {
    hide Happens;
    if hs == [] {
      assert hs + gs == gs;
    } else {
      assert (hs + gs)[1..] == hs[1..] + gs;
      RunAppend(Happens(a, hs[0], m), hs[1..], gs, m);
    }
  }

  /** A command fails with `k` errors, the next call goes out behind the beats they leave, and its ACK
      comes. */
  function NextCommand(k: nat, c: ApiCall, f: Reply): seq<Happening> {
    [Turn, Called(c)] + Turns(k) + [SentAck(f), Turn]
  }

  lemma TwoHappen(a: Env, g: Happening, h: Happening, m: Machines)
    ensures Run(a, [g, h], m) == Happens(Happens(a, g, m), h, m)
  {
    hide Happens;
    assert [g, h][1..] == [h] && [h][1..] == [];
    assert Run(Happens(a, g, m), [h], m) == Run(Happens(Happens(a, g, m), h, m), [], m);
  }

  lemma NextCommandEnds(a: Env, k: nat, c: ApiCall, f: Reply, m: Machines)
    requires a.state == S_RUNNING && a.qRecv == [] && a.qBack == [] && k > 0 && a.qSend == seq(k, _ => Error)
    ensures Run(a, NextCommand(k, c, f), m) == Plain(a.(qSend := [], sent := a.sent + [c]), Ack(f), m)
  {
    hide Handled;
    var b := a.(state := S_IDLE, qSend := Beats(k - 1));
    assert Handled(a, m) == b by {
      GivenBeats(k);
      assert Behind(a, k) == Beats(k) && Beats(k)[1..] == Beats(k - 1);
      ErrorsHandleOne(a, k, m);
    }
    var called := b.(qSend := Beats(k - 1) + [CallApi(c)]);
    TwoHappen(a, Turn, Called(c), m);
    var sent := a.(qSend := [], sent := a.sent + [c]);
    assert Run(called, Turns(k), m) == sent by {
      assert called.qSend == Beats(k - 1) + [CallApi(c)] + [];
      IdleTakesFirstCall(called, c, Beats(k - 1), [], m);
    }
    TwoHappen(sent, SentAck(f), Turn, m);
    AckTaken(sent, f, m);
    RunAppend(a, [Turn, Called(c)], Turns(k), m);
    RunAppend(a, [Turn, Called(c)] + Turns(k), [SentAck(f), Turn], m);
  }

  lemma AckTaken(a: Env, f: Reply, m: Machines)
    requires a.state == S_RUNNING && a.qRecv == [] && a.qSend == []
    ensures Handled(Happens(a, SentAck(f), m), m) == Plain(a, Ack(f), m)
  {
    hide Plain;
    var b := Happens(a, SentAck(f), m);
    assert b.qSend == [Ack(f)] && Popped(b) == a;
  }

  /** A machine that was attached when the command failed takes the ACK of the next call as its own. */
  lemma MachineSurvivesError(a: Env, k: nat, c: ApiCall, f: Reply, m: Machines)
    requires a.state == S_RUNNING && a.qRecv == [] && a.qBack == [] && k > 0 && a.qSend == seq(k, _ => Error)
    requires a.sub.Some? && m.OnAck(a.sub.value, f).state != S_END
    ensures var b := Run(a, NextCommand(k, c, f), m);
            && b.state == S_RUNNING && b.sent == a.sent + [c]
            && b.sub == Some(Sub(a.sub.value.api, m.OnAck(a.sub.value, f).state))
  {
    hide Run, NextCommand, PushCalls;
    NextCommandEnds(a, k, c, f, m);
    PushCallsState(a.(qSend := [], sent := a.sent + [c]), m.OnAck(a.sub.value, f).calls);
  }

  /** Whatever the machines do, the ACK of the call after a failed command starts that call's machine, if
      and only if no machine was attached when the command failed. */
  lemma AckAfterFailure(a: Env, k: nat, c: ApiCall, f: Reply, initial: Byte -> Option<int>)
    requires a.state == S_RUNNING && a.qRecv == [] && a.qBack == [] && k > 0 && a.qSend == seq(k, _ => Error)
    requires initial(f.cmd).Some?
    ensures (forall m: Machines | m.initial == initial ::
               Run(a, NextCommand(k, c, f), m).sub == Some(Sub(f.cmd, initial(f.cmd).value)))
            <==> a.sub.None?
  {
    hide Run, NextCommand, Released, PushCalls;
    var start := initial(f.cmd).value;
    if a.sub.None? {
      forall m: Machines | m.initial == initial
        ensures Run(a, NextCommand(k, c, f), m).sub == Some(Sub(f.cmd, start))
      {
        NextCommandEnds(a, k, c, f, m);
      }
    } else {
      var other := if start == 0 then 1 else 0;
      var m := Elsewhere(initial, other);
      NextCommandEnds(a, k, c, f, m);
      PushCallsState(a.(qSend := [], sent := a.sent + [c]), []);
      assert Run(a, NextCommand(k, c, f), m).sub == Some(Sub(a.sub.value.api, other));
    }
  }

  /** Machines that each step takes to state `to`. */
  function Elsewhere(initial: Byte -> Option<int>, to: int): Machines {
    Machines(initial, b => false, (s, g) => Move(to, []), (s, g) => Move(to, []), (s, d) => false)
  }

  // ---------------------------------------------------------------- the ACK of a call

  /** The command goes on, and no ACK and no error is handled. */
  predicate GoesOn(a: Env, hs: seq<Happening>, m: Machines)
    decreases |hs|
  {
    hs == [] ||
    var b := Happens(a, hs[0], m);
    !(hs[0].Turn? && Next(a).Some? && (Next(a).value.Ack? || Next(a).value.Error?)) &&
    b.state == S_RUNNING && GoesOn(b, hs[1..], m)
  }

  lemma GoesOnStep(a: Env, h: Happening, m: Machines)
    requires a.state == S_RUNNING && Happens(a, h, m).state == S_RUNNING
    requires !(h.Turn? && Next(a).Some? && (Next(a).value.Ack? || Next(a).value.Error?))
    ensures Happens(a, h, m).sub.None? <==> a.sub.None?
  {
    hide PushCalls, Released;
    ReleasedState(Popped(a));
  }

  lemma {:induction false} GoesOnKeeps(a: Env, hs: seq<Happening>, m: Machines)
    requires a.state == S_RUNNING && GoesOn(a, hs, m)
    ensures Run(a, hs, m).state == S_RUNNING && (Run(a, hs, m).sub.None? <==> a.sub.None?)
    decreases |hs|
  {
    hide Happens;
    if hs != [] {
      GoesOnStep(a, hs[0], m);
      GoesOnKeeps(Happens(a, hs[0], m), hs[1..], m);
    }
  }

  /** The next event is an ACK of `f`, and whatever the machines do with it, it starts the machine of
      that command. */
  ghost predicate AckStarts(a: Env, f: Reply, m: Machines) {
    Next(a) == Some(Ack(f)) && m.initial(f.cmd).Some? &&
    forall m': Machines | m'.initial == m.initial ::
      Handled(a, m').sub == Some(Sub(f.cmd, m.initial(f.cmd).value))
  }

  lemma AckStartsExactly(a: Env, f: Reply, m: Machines)
    requires a.state == S_RUNNING && Next(a) == Some(Ack(f)) && m.initial(f.cmd).Some?
    ensures AckStarts(a, f, m) <==> a.sub.None?
  {
    hide PushCalls, Released;
    var start := m.initial(f.cmd).value;
    if a.sub.Some? {
      var other := if start == 0 then 1 else 0;
      var m' := Elsewhere(m.initial, other);
      PushCallsState(Popped(a), []);
      assert Handled(a, m') == Plain(Popped(a), Ack(f), m');
      assert Handled(a, m').sub == Some(Sub(a.sub.value.api, other));
    } else {
      forall m': Machines | m'.initial == m.initial
        ensures Handled(a, m').sub == Some(Sub(f.cmd, start))
      {
        assert Handled(a, m') == Plain(Popped(a), Ack(f), m');
      }
    }
  }

  /** Main result: over every run from the start, when a call is taken up, the first ACK handled while its
      command goes on starts its machine if and only if no machine was left attached before. */
  lemma AckStartsMachine(before: seq<Happening>, after: seq<Happening>, f: Reply, m: Machines)
    requires var a := Run(INITIAL, before, m);
             && a.state == S_IDLE && Next(a).Some? && Next(a).value.CallApi?
             && GoesOn(Handled(a, m), after, m)
             && Next(Run(Handled(a, m), after, m)) == Some(Ack(f)) && m.initial(f.cmd).Some?
    ensures AckStarts(Run(Run(INITIAL, before, m), [Turn] + after, m), f, m) <==> !LeftAttached(INITIAL, before, m)
  {
    hide AckStarts, Released;
    var a := Run(INITIAL, before, m);
    assert ([Turn] + after)[1..] == after;
    assert Run(a, [Turn] + after, m) == Run(Handled(a, m), after, m);
    assert Handled(a, m).state == S_RUNNING && Handled(a, m).sub == a.sub;
    GoesOnKeeps(Handled(a, m), after, m);
    AckStartsExactly(Run(Handled(a, m), after, m), f, m);
    StaleExactly(INITIAL, before, m);
  }

  // ---------------------------------------------------------------- machines without states

  /** CmdSerialApiSoftReset, whose machine announces no states. */
  const SOFT_RESET: Byte := 0x08

  /** A machine without states, once attached, stays over every run without the send timer, as no ACK and
      no data end it. */
  lemma {:induction false} StatelessStays(a: Env, hs: seq<Happening>, m: Machines)
    requires a.sub.Some? && m.stateless(a.sub.value.api) && a.sub.value.state != S_END
    requires SendTimer !in hs
    ensures Run(a, hs, m).sub == a.sub
    decreases |hs|
  {
    hide Handled;
    if hs != [] {
      if hs[0].Turn? {
        StatelessTurn(a, m);
      }
      assert Happens(a, hs[0], m).sub == a.sub;
      StatelessStays(Happens(a, hs[0], m), hs[1..], m);
    }
  }

  lemma {:induction false} StatelessTurn(a: Env, m: Machines)
    requires a.sub.Some? && m.stateless(a.sub.value.api) && a.sub.value.state != S_END
    ensures Handled(a, m).sub == a.sub
    decreases AllErrors(a)
  {
    hide Plain, Released;
    if Next(a).Some? {
      if Next(a).value.Error? && a.state == S_RUNNING {
        PoppedErrors(a);
        ReleasedErrors(Popped(a));
        ReleasedState(Popped(a));
        StatelessTurn(Released(Popped(a)), m);
      } else {
        StatelessPlain(Popped(a), Next(a).value, m);
      }
    }
  }

  lemma StatelessPlain(a: Env, e: ApiEvent, m: Machines)
    requires a.sub.Some? && m.stateless(a.sub.value.api) && a.sub.value.state != S_END
    ensures Plain(a, e, m).sub == a.sub
  {
    hide Released;
    PushCallsState(a, []);
  }

  /** The soft reset: its own ACK leaves the dispatcher idle with its machine attached, though no error came;
      and whatever else is called, until the send timer comes no other machine is ever started. */
  lemma SoftResetStays(param: seq<Byte>, payload: seq<Byte>, hs: seq<Happening>, m: Machines)
    requires m.initial(SOFT_RESET).Some? && m.initial(SOFT_RESET).value != S_END && m.stateless(SOFT_RESET)
    requires SendTimer !in hs
    ensures var a := Run(INITIAL, Reset(param, payload), m);
            && a == Env(0, Some(Sub(0x08, m.initial(0x08).value)), [], [], [], [ApiCall(0x08, param)])
            && Stale(a) && Run(a, hs, m).sub == a.sub
  {
    hide Run, Handled;
    var c, f := ApiCall(SOFT_RESET, param), Reply(SOFT_RESET, payload);
    var sent := INITIAL.(state := S_RUNNING, sent := [c]);
    TwoHappen(INITIAL, Called(c), Turn, m);
    CallHandled(Push(INITIAL, CallApi(c)), c, m);
    assert [] + [CallApi(c)] == [CallApi(c)] && INITIAL.sent + [c] == [c];
    TwoHappen(sent, SentAck(f), Turn, m);
    AckTaken(sent, f, m);
    RunAppend(INITIAL, [Called(c), Turn], [SentAck(f), Turn], m);
    StatelessStays(Run(INITIAL, Reset(param, payload), m), hs, m);
  }

  function Reset(param: seq<Byte>, payload: seq<Byte>): seq<Happening> {
    [Called(ApiCall(SOFT_RESET, param)), Turn] + [SentAck(Reply(SOFT_RESET, payload)), Turn]
  }

  lemma CallHandled(a: Env, c: ApiCall, m: Machines)
    requires a.state == S_IDLE && Next(a) == Some(CallApi(c))
    ensures Handled(a, m) == Popped(a).(state := S_RUNNING, sent := a.sent + [c])
  {
  }

  // ---------------------------------------------------------------- what a machine is told

  function CallEvents(cs: seq<ApiCall>): seq<ApiEvent> {
    seq(|cs|, i requires 0 <= i < |cs| => CallApi(cs[i]))
  }

  lemma {:induction false} PushCallsMeans(a: Env, cs: seq<ApiCall>)
    ensures PushCalls(a, cs) == a.(qSend := a.qSend + CallEvents(cs))
    decreases |cs|
  {
    if cs == [] {
      assert a.qSend + CallEvents(cs) == a.qSend;
    } else {
      PushCallsMeans(Push(a, CallApi(cs[0])), cs[1..]);
      assert CallEvents(cs) == [CallApi(cs[0])] + CallEvents(cs[1..]);
      assert a.qSend + [CallApi(cs[0])] + CallEvents(cs[1..]) == a.qSend + CallEvents(cs);
    }
  }

  /** What the machine attached makes of a reply. */
  function MoveOn(s: Sub, e: ApiEvent, m: Machines): Move
    requires e.Ack? || e.Data?
  {
    if m.stateless(s.api) then Move(s.state, []) else if e.Ack? then m.ackMove(s, e.frame) else m.dataMove(s, e.frame)
  }

  /** One turn in which the machine attached is given a reply: it moves to the state it chooses, and the calls
      it makes join the sending queue in order; or it ends, and behind them comes the oldest call from
      aside, with a beat. */
  lemma ReplyAdvances(a: Env, m: Machines)
    requires a.state == S_RUNNING && a.sub.Some? && Next(a).Some? && (Next(a).value.Ack? || Next(a).value.Data?)
    ensures var p := Popped(a);
            var move := MoveOn(a.sub.value, Next(a).value, m);
            var q := p.qSend + CallEvents(move.calls);
            Handled(a, m) ==
            if move.state != 9999 then p.(sub := Some(Sub(a.sub.value.api, move.state)), qSend := q)
            else p.(state := 0, sub := None, qSend := q + Given(a.qBack, 1), qBack := Left(a.qBack, 1))
  {
    hide PushCalls, CallEvents, Given;
    var p := Popped(a);
    var move := MoveOn(a.sub.value, Next(a).value, m);
    PushCallsMeans(p, move.calls);
    GivenUnfolds(a.qBack, 1);
    GivenNone([]);
    if a.qBack != [] {
      GivenNone(a.qBack[1..]);
      assert p.qSend + CallEvents(move.calls) + [a.qBack[0]] + [Beat]
          == p.qSend + CallEvents(move.calls) + ([a.qBack[0], Beat] + []);
    } else {
      assert [Beat] + [] == [Beat];
    }
  }

  /** Data for a command without a machine end it. */
  lemma DataWithoutMachine(a: Env, m: Machines)
    requires a.state == S_RUNNING && a.sub.None? && Next(a).Some? && Next(a).value.Data?
    ensures Handled(a, m) ==
            Popped(a).(state := 0, qSend := Popped(a).qSend + Given(a.qBack, 1), qBack := Left(a.qBack, 1))
  {
    hide Given;
    GivenUnfolds(a.qBack, 1);
    GivenNone([]);
    var q := Popped(a).qSend;
    if a.qBack != [] {
      GivenNone(a.qBack[1..]);
      assert q + [a.qBack[0]] + [Beat] == q + ([a.qBack[0], Beat] + []);
    } else {
      assert [Beat] + [] == [Beat];
    }
  }

  /** How many errors stand in front. */
  function Failures(q: seq<ApiEvent>): (n: nat)
    ensures n <= |q|
    decreases |q|
  {
    if q != [] && q[0].Error? then 1 + Failures(q[1..]) else 0
  }

  lemma {:induction false} FailuresFirst(q: seq<ApiEvent>)
    ensures ErrorsFirst(q, Failures(q))
    decreases |q|
  {
    if q != [] && q[0].Error? {
      FailuresFirst(q[1..]);
      var n := Failures(q);
      assert forall i :: 0 < i < n ==> q[i] == q[1..][i - 1];
      assert n < |q| ==> q[n] == q[1..][n - 1];
    }
  }

  /** The event that a running dispatcher handles in a turn: a received frame, or the first behind the errors. */
  function Meets(a: Env): Option<ApiEvent> {
    if a.qRecv != [] then Some(a.qRecv[0])
    else
      var q := Behind(a, Failures(a.qSend));
      if q == [] then None else Some(q[0])
  }

  /** The machine started by the ACK of `cmd`, and the replies handled since. */
  datatype Story = Story(cmd: Byte, heard: seq<ApiEvent>)

  /** The state such a machine has reached, folded over what it heard. */
  function Reached(cmd: Byte, heard: seq<ApiEvent>, m: Machines): int
    decreases |heard|
  {
    if heard == [] then (if m.initial(cmd).Some? then m.initial(cmd).value else 0)
    else
      var n := |heard| - 1;
      var k := Reached(cmd, heard[..n], m);
      if m.stateless(cmd) then k
      else
        match heard[n]
        case Ack(f) => m.ackMove(Sub(cmd, k), f).state
        case Data(f) => m.dataMove(Sub(cmd, k), f).state
        case _ => k
  }

  /** The story goes on: an ACK starts a machine, replies are heard, and the end is 9999. */
  function Continued(story: Option<Story>, e: ApiEvent, m: Machines): Option<Story> {
    match story
    case None => if e.Ack? && m.initial(e.frame.cmd).Some? then Some(Story(e.frame.cmd, [])) else None
    case Some(t) =>
      if !e.Ack? && !e.Data? then story
      else if Reached(t.cmd, t.heard + [e], m) == 9999 then None
      else Some(Story(t.cmd, t.heard + [e]))
  }

  /** Only the turns of a running dispatcher tell anything, and the send timer forgets it all. */
  function Told(a: Env, story: Option<Story>, h: Happening, m: Machines): Option<Story> {
    if h.SendTimer? then None
    else if h.Turn? && a.state == S_RUNNING && Meets(a).Some? then Continued(story, Meets(a).value, m)
    else story
  }

  function ToldAll(a: Env, story: Option<Story>, hs: seq<Happening>, m: Machines): Option<Story>
    decreases |hs|
  {
    if hs == [] then story else ToldAll(Happens(a, hs[0], m), Told(a, story, hs[0], m), hs[1..], m)
  }

  function SubOf(story: Option<Story>, m: Machines): Option<Sub> {
    if story.None? then None else Some(Sub(story.value.cmd, Reached(story.value.cmd, story.value.heard, m)))
  }

  lemma PlainTells(a: Env, e: ApiEvent, story: Option<Story>, m: Machines)
    requires a.state == S_RUNNING && a.sub == SubOf(story, m)
    ensures Plain(a, e, m).sub == SubOf(Continued(story, e, m), m)
  {
    hide PushCalls, Released;
    if story.Some? && (e.Ack? || e.Data?) {
      var t := story.value;
      assert (t.heard + [e])[..|t.heard|] == t.heard;
      PushCallsState(a, MoveOn(a.sub.value, e, m).calls);
    } else {
      ReleasedState(a);
    }
  }

  lemma TurnTells(a: Env, story: Option<Story>, m: Machines)
    requires Shaped(a) && a.state == S_RUNNING && a.sub == SubOf(story, m)
    ensures Handled(a, m).sub == SubOf(Told(a, story, Turn, m), m)
  {
    hide Plain, Continued, SubOf, Handled;
    if a.qRecv != [] {
      assert a.qRecv[0] in a.qRecv;
      PlainTells(Popped(a), a.qRecv[0], story, m);
      HandledPlain(a, m);
    } else {
      var n := Failures(a.qSend);
      FailuresFirst(a.qSend);
      if n > 0 {
        ErrorsHandleOne(a, n, m);
        var q := Behind(a, n);
        PlainTells(a.(qSend := q[1..], qBack := Left(a.qBack, n)), q[0], story, m);
      } else {
        GivenNone(a.qBack);
        assert Behind(a, 0) == a.qSend;
        HandledPlain(a, m);
        if a.qSend != [] {
          PlainTells(Popped(a), a.qSend[0], story, m);
        }
      }
    }
  }

  lemma HandledPlain(a: Env, m: Machines)
    ensures Next(a).None? ==> Handled(a, m) == a
    ensures Next(a).Some? && !Next(a).value.Error? ==> Handled(a, m) == Plain(Popped(a), Next(a).value, m)
  {
    hide Plain;
  }

  /** Main result: over every run the machine attached is the one started by the last ACK that found none,
      in the state that the moves on the ACKs and data handled since then lead to. */
  lemma {:induction false} MachineFollowsReplies(a: Env, story: Option<Story>, hs: seq<Happening>, m: Machines)
    requires Shaped(a) && a.sub == SubOf(story, m)
    ensures Run(a, hs, m).sub == SubOf(ToldAll(a, story, hs, m), m)
    decreases |hs|
  {
    hide Handled, Shaped, SubOf, Continued, Meets;
    if hs != [] {
      StepTells(a, story, hs[0], m);
      MachineFollowsReplies(Happens(a, hs[0], m), Told(a, story, hs[0], m), hs[1..], m);
    }
  }

  lemma StepTells(a: Env, story: Option<Story>, h: Happening, m: Machines)
    requires Shaped(a) && a.sub == SubOf(story, m)
    ensures Shaped(Happens(a, h, m)) && Happens(a, h, m).sub == SubOf(Told(a, story, h, m), m)
  {
    hide Handled, Continued, Meets;
    if h.Turn? {
      HandledShaped(a, m);
      if a.state == S_RUNNING {
        TurnTells(a, story, m);
      } else {
        IdleTurn(a, m);
      }
    }
    RunShaped(a, [h], m);
    assert [h][1..] == [];
  }

  lemma IdleTurn(a: Env, m: Machines)
    requires a.state == S_IDLE
    ensures Handled(a, m).sub == a.sub
    ensures Handled(a, m).state == S_RUNNING <==> Next(a).Some? && Next(a).value.CallApi?
  {
  }

  /** A command is running after a turn if and only if a call was taken up in it, or the command ran before,
      no error was met, and what was met did not end it: an ACK for which there is no machine, or one without
      states, data for which there is none, or a reply on which the machine moves to its end. */
  lemma RunningExactly(a: Env, m: Machines)
    requires Shaped(a)
    ensures Handled(a, m).state == 1 <==>
            if a.state == 0 then Next(a).Some? && Next(a).value.CallApi?
            else
              Next(a).None? ||
              var e := Next(a).value;
              && !e.Error?
              && (e.Ack? && a.sub.None? ==> m.initial(e.frame.cmd).Some? && !m.stateless(e.frame.cmd))
              && (e.Data? ==> a.sub.Some?)
              && ((e.Ack? || e.Data?) && a.sub.Some? ==> MoveOn(a.sub.value, e, m).state != 9999)
  {
    hide PushCalls, Released, Handled;
    if a.state == S_IDLE {
      IdleTurn(a, m);
    } else if Next(a).Some? && Next(a).value.Error? {
      ErrorIsNested(a, m);
    } else {
      HandledPlain(a, m);
      if Next(a).Some? && a.sub.Some? && (Next(a).value.Ack? || Next(a).value.Data?) {
        PushCallsState(Popped(a), MoveOn(a.sub.value, Next(a).value, m).calls);
      }
    }
  }

  /** A received frame is filed as the answer of the running command if and only if its command is that of the
      machine attached, or 0x49 for the machine of 0x60; otherwise as news. */
  lemma ReceivedExactly(a: Env, f: Reply, m: Machines)
    ensures var b := Happens(a, Received(f), m);
            var answers := a.state == 1 && a.sub.Some? &&
                           (f.cmd == a.sub.value.api || (a.sub.value.api == 0x60 && f.cmd == 0x49));
            b == a.(qRecv := a.qRecv + [if answers then Data(f) else AsyncData(f)])
  {
  }

  /** So the answer of a running command moves its machine in the next turn, and no other frame does. */
  lemma AnswerIsHeard(a: Env, f: Reply, m: Machines)
    requires a.state == 1 && a.sub.Some? && a.qRecv == []
    ensures var s := a.sub.value;
            var b := Run(a, [Received(f), Turn], m);
            if f.cmd == s.api || (s.api == 0x60 && f.cmd == 0x49) then
              var k := MoveOn(s, Data(f), m).state;
              b.sub == if k == 9999 then None else Some(Sub(s.api, k))
            else b == a
  {
    hide Handled, MoveOn;
    TwoHappen(a, Received(f), Turn, m);
    var b := Happens(a, Received(f), m);
    ReceivedExactly(a, f, m);
    assert b.qRecv == [b.qRecv[0]] && b.qRecv[1..] == [];
    if b.qRecv[0].Data? {
      ReplyAdvances(b, m);
    } else {
      HandledPlain(b, m);
    }
  }
}
