/** The dispatcher of product/zwave/src/api.c as it runs: the table of its state machine, its three
    lock queues, and the handler that re-enters itself. */
module Dispatchers {
  import opened Options
  import opened Lists
  import opened StateMachines
  import opened Api

  /** The handlers named in the table; an action and the transition of the same name go together. */
  datatype Role = IdleBeat | IdleCall | IdleAsync | RunError | RunAck | RunAsync | RunData | RunCall

  function EventId(e: ApiEvent): int {
    match e
    case Beat => 0
    case CallApi(_) => 1
    case AsyncData(_) => 2
    case Error => 3
    case Ack(_) => 4
    case Data(_) => 5
  }

  /** smApi, with the command machine that runs. */
  function Table(sub: Option<Sub>): seq<TableState<Role, Sub>> {
    [TableState(S_IDLE, [Handler(0, Some(IdleBeat), None),
                         Handler(1, Some(IdleCall), Some(IdleCall)),
                         Handler(2, Some(IdleAsync), None)], None),
     TableState(S_RUNNING, [Handler(3, Some(RunError), Some(RunError)),
                            Handler(4, Some(RunAck), Some(RunAck)),
                            Handler(2, Some(RunAsync), Some(RunAsync)),
                            Handler(5, Some(RunData), Some(RunData)),
                            Handler(1, Some(RunCall), Some(RunCall))], sub)]
  }

  /** What the table says. */
  function RoleOf(state: int, e: ApiEvent): Choice<Role> {
    if state == S_IDLE then
      match e
      case Beat => Choice(Some(IdleBeat), None)
      case CallApi(_) => Choice(Some(IdleCall), Some(IdleCall))
      case AsyncData(_) => Choice(Some(IdleAsync), None)
      case _ => Choice(None, None)
    else if state == S_RUNNING then
      match e
      case Error => Choice(Some(RunError), Some(RunError))
      case Ack(_) => Choice(Some(RunAck), Some(RunAck))
      case AsyncData(_) => Choice(Some(RunAsync), Some(RunAsync))
      case Data(_) => Choice(Some(RunData), Some(RunData))
      case CallApi(_) => Choice(Some(RunCall), Some(RunCall))
      case Beat => Choice(None, None)
    else Choice(None, None)
  }

  lemma TableMeans(state: int, sub: Option<Sub>, e: ApiEvent)
    ensures Chosen(Table(sub), state, EventId(e), Choice(None, None)) == RoleOf(state, e)
  {
    hide Chosen;
    var t := Table(sub);
    if state == S_IDLE {
      ChosenIsUnique(t, 0, EventId(e), Choice(None, None));
      var hs := t[0].handlers;
      assert hs[1..] == [hs[1], hs[2]] && hs[1..][1..] == [hs[2]] && hs[1..][1..][1..] == [];
      FirstOf(hs, EventId(e));
      FirstOf(hs[1..], EventId(e));
      FirstOf(hs[1..][1..], EventId(e));
    } else if state == S_RUNNING {
      ChosenIsUnique(t, 1, EventId(e), Choice(None, None));
      var hs := t[1].handlers;
      FirstOf(hs, EventId(e));
      FirstOf(hs[1..], EventId(e));
      FirstOf(hs[1..][1..], EventId(e));
      FirstOf(hs[1..][1..][1..], EventId(e));
      FirstOf(hs[1..][1..][1..][1..], EventId(e));
    } else {
      NoSuchState(t, state, EventId(e), Choice(None, None));
    }
  }

  lemma FirstOf(hs: seq<Handler<Role>>, eid: int)
    requires hs != []
    ensures FirstHandler(hs, eid) == if hs[0].eid == eid then Some(hs[0]) else FirstHandler(hs[1..], eid)
  {
  }

  /** What handling an event leaves. */
  function Stepped(a: Env, e: ApiEvent, m: Machines): Env {
    if e.Error? && a.state == S_RUNNING then Handled(Released(a), m).(state := S_IDLE) else Plain(a, e, m)
  }

  lemma HandledSteps(a: Env, m: Machines)
    requires Next(a).Some?
    ensures Handled(a, m) == Stepped(Popped(a), Next(a).value, m)
  {
    PoppedErrors(a);
    ReleasedErrors(Popped(a));
  }

  lemma ErrorMeans(a: Env, e: ApiEvent, m: Machines)
    requires RoleOf(a.state, e).action == Some(RunError)
    ensures e.Error? && a.state == S_RUNNING
    ensures Stepped(a, e, m) == Handled(Released(a), m).(state := S_IDLE)
  {
  }

  class Dispatcher {
    const sm: StateMachine<Role, Sub>
    const qRecv: LockQueue<ApiEvent>
    const qSend: LockQueue<ApiEvent>
    const qBack: LockQueue<ApiEvent>
    var sent: seq<ApiCall>
    const m: Machines

    ghost predicate Valid()
      reads this, sm, qRecv.list, qSend.list, qBack.list, qRecv.list.repr, qSend.list.repr, qBack.list.repr
    {
      && |sm.states| == 2 && sm.initState == S_IDLE && sm.states == Table(sm.states[1].param)
      && qRecv.Valid() && qSend.Valid() && qBack.Valid()
      && qRecv.list != qSend.list && qRecv.list != qBack.list && qSend.list != qBack.list
      && qRecv.list.repr !! qSend.list.repr && qRecv.list.repr !! qBack.list.repr && qSend.list.repr !! qBack.list.repr
    }

    ghost function State(): Env
      reads this, sm, qRecv.list, qSend.list, qBack.list
      requires |sm.states| == 2
    {
      Env(sm.state, sm.states[1].param, qRecv.Waiting(), qSend.Waiting(), qBack.Waiting(), sent)
    }

    /** What stays the same and what may only grow. */
    twostate predicate Kept()
      reads this, qRecv.list, qSend.list, qBack.list
    {
      && fresh(qRecv.list.repr - old(qRecv.list.repr)) && fresh(qSend.list.repr - old(qSend.list.repr))
      && fresh(qBack.list.repr - old(qBack.list.repr))
    }

    /** api_init. */
    constructor (m: Machines)
      ensures Valid() && State() == INITIAL && this.m == m
    {
      sm := new StateMachine(S_IDLE, Table(None));
      qRecv := new LockQueue();
      qSend := new LockQueue();
      qBack := new LockQueue();
      sent := [];
      this.m := m;
    }

    method PushSend(e: ApiEvent)
      requires Valid()
      modifies qSend.list, qSend.list.repr
      ensures Valid() && Kept() && State() == Api.Push(old(State()), e)
    {
      hide Table;
      qSend.Push(e);
    }

    method PushBack(e: ApiEvent)
      requires Valid()
      modifies qBack.list, qBack.list.repr
      ensures Valid() && Kept() && State() == old(State()).(qBack := old(State()).qBack + [e])
    {
      hide Table;
      qBack.Push(e);
    }

    /** api_restore_api_call_event. */
    method RestoreCall()
      requires Valid()
      modifies qBack.list, qBack.list.repr, qSend.list, qSend.list.repr
      ensures Valid() && Kept() && State() == Restore(old(State()))
    {
      hide Table, LockQueue.Valid, LockQueue.Waiting;
      var e := qBack.Pop();
      if e.Some? {
        PushSend(e.value);
      }
    }

    method Release()
      requires Valid()
      modifies qBack.list, qBack.list.repr, qSend.list, qSend.list.repr
      ensures Valid() && Kept() && State() == Released(old(State()))
    {
      hide Table, LockQueue.Valid, LockQueue.Waiting;
      RestoreCall();
      PushSend(Beat);
    }

    ghost function Footprint(): set<object>
      reads qRecv.list, qSend.list, qBack.list
    {
      {this, sm, qRecv.list, qSend.list, qBack.list} + qRecv.list.repr + qSend.list.repr + qBack.list.repr
    }

    /** The command machine kept by the state S_RUNNING, which state_machine_search_state finds. */
    method Attached() returns (sub: Option<Sub>)
      requires Valid()
      ensures sub == State().sub
    {
      var at := sm.SearchState(S_RUNNING);
      assert sm.states[1].stateId == S_RUNNING && sm.states[0].stateId != S_RUNNING;
      sub := sm.states[at.value].param;
    }

    method Attach(sub: Option<Sub>)
      requires Valid()
      modifies sm
      ensures Valid() && State() == old(State()).(sub := sub)
    {
      sm.states := Table(sub);
    }

    /** idle_action_call_api and the second half of running_action_call_api: session_send. */
    method SessionSend(c: ApiCall)
      requires Valid()
      modifies this
      ensures Valid() && State() == old(State()).(sent := old(State()).sent + [c])
    {
      hide Table;
      sent := sent + [c];
    }

    /** After a step of the command machine, in running_action_ack and running_action_data. */
    method Advance(s: Sub, move: Move) returns (acret: int)
      requires Valid() && sm.state == S_RUNNING
      modifies Footprint()
      ensures Valid() && Kept()
      ensures var b := Advanced(old(State()), s, move); State() == b.(state := S_RUNNING) && acret == b.state
    {
      hide Table, Released, PushCalls, LockQueue.Valid, LockQueue.Waiting;
      PushCallsState(State(), move.calls);
      CallAll(move.calls);
      if move.state == S_END {
        Release();
        Attach(None);
        return S_IDLE;
      }
      Attach(Some(Sub(s.api, move.state)));
      return S_RUNNING;
    }

    /** The calls of api_call that a command machine makes. */
    method CallAll(calls: seq<ApiCall>)
      requires Valid()
      modifies qSend.list, qSend.list.repr
      ensures Valid() && Kept() && State() == PushCalls(old(State()), calls)
      decreases |calls|
    {
      hide Table, LockQueue.Valid, LockQueue.Waiting;
      if calls != [] {
        PushSend(CallApi(calls[0]));
        CallAll(calls[1..]);
      }
    }

    /** running_action_ack. */
    method RunningAck(f: Reply) returns (acret: int)
      requires Valid() && sm.state == S_RUNNING
      modifies Footprint()
      ensures Valid() && Kept()
      ensures var b := Plain(old(State()), Ack(f), m);
              State() == b.(state := S_RUNNING) && acret == if old(State()).sub.None? then S_IDLE else b.state
    {
      hide Table, Released, Advanced, LockQueue.Valid, LockQueue.Waiting;
      var sub := Attached();
      if sub.Some? {
        acret := Advance(sub.value, m.OnAck(sub.value, f));
      } else {
        var start := m.initial(f.cmd);
        Attach(if start.Some? then Some(Sub(f.cmd, start.value)) else None);
        acret := S_IDLE;
      }
    }

    /** running_action_data. */
    method RunningData(f: Reply) returns (acret: int)
      requires Valid() && sm.state == S_RUNNING
      modifies Footprint()
      ensures Valid() && Kept()
      ensures var b := Plain(old(State()), Data(f), m); State() == b.(state := S_RUNNING) && acret == b.state
    {
      hide Table, Released, Advanced, LockQueue.Valid, LockQueue.Waiting;
      var sub := Attached();
      if sub.Some? {
        acret := Advance(sub.value, m.OnData(sub.value, f));
      } else {
        Release();
        acret := S_IDLE;
      }
    }

    /** running_action_call_api. */
    method RunningCall(c: ApiCall) returns (acret: int)
      requires Valid() && sm.state == S_RUNNING
      modifies Footprint()
      ensures Valid() && Kept()
      ensures State() == Plain(old(State()), CallApi(c), m) && acret == S_RUNNING
    {
      hide Table, LockQueue.Valid, LockQueue.Waiting;
      var sub := Attached();
      if sub.Some? && m.takes(sub.value, c) {
        SessionSend(c);
      } else {
        PushBack(CallApi(c));
      }
      acret := S_RUNNING;
    }

    /** running_transition_ack; the NULL an action returns and S_IDLE are the same to it. */
    method TransitionAck(acret: int) returns (next: int)
      requires Valid()
      ensures next == if acret != 0 then acret
                      else if State().sub.None? || m.stateless(State().sub.value.api) then S_IDLE else S_RUNNING
    {
      if acret == 0 {
        var sub := Attached();
        return if sub.None? || m.stateless(sub.value.api) then S_IDLE else S_RUNNING;
      }
      return acret;
    }

    /** state_machine_step on smApi, for an event that has been popped. */
    method Step(e: ApiEvent)
      requires Valid()
      modifies Footprint()
      ensures Valid() && Kept() && State() == Stepped(old(State()), e, m)
      decreases AllErrors(State()) + if e.Error? then 1 else 0, 0, 1
    {
      hide Table, Chosen, RoleOf, Plain, Stepped, Released, LockQueue.Valid, LockQueue.Waiting, AllErrors, Handled;
      TableMeans(sm.state, sm.states[1].param, e);
      var c := sm.Choose(EventId(e));
      if c.action == Some(RunError) {
        ErrorMeans(State(), e, m);
        Fail();
      } else {
        var next := Perform(c, e);
        SetState(next);
      }
    }

    method SetState(state: int)
      requires Valid()
      modifies sm`state
      ensures Valid() && State() == old(State()).(state := state)
    {
      hide Table;
      sm.state := state;
    }

    /** running_action_error and running_transition_error, and the setting of the state behind them. */
    method Fail()
      requires Valid() && sm.state == S_RUNNING
      modifies Footprint()
      ensures Valid() && Kept() && State() == Handled(Released(old(State())), m).(state := S_IDLE)
      decreases AllErrors(State()) + 1, 0, 0
    {
      hide Table, Handled, Released, LockQueue.Valid, LockQueue.Waiting;
      ReleasedErrors(State());
      Release();
      var handled := HandlerOneEvent();
      SetState(S_IDLE);
    }

    /** The other actions and transitions of the table. */
    method Perform(c: Choice<Role>, e: ApiEvent) returns (next: int)
      requires Valid() && c == RoleOf(sm.state, e) && c.action != Some(RunError)
      modifies Footprint()
      ensures Valid() && Kept() && State().(state := next) == Stepped(old(State()), e, m)
    {
      hide Table, Released, Handled, LockQueue.Valid, LockQueue.Waiting;
      next := sm.state;
      if c.action.Some? {
        match c.action.value
        case IdleCall =>
          SessionSend(e.call);
          next := S_RUNNING;
        case RunCall => next := RunningCall(e.call);
        case RunAck =>
          var acret := RunningAck(e.frame);
          next := TransitionAck(acret);
        case RunData => next := RunningData(e.frame);
        case RunAsync => next := S_RUNNING;
        case _ =>
      }
    }

    /** The two pops at the start of handlerOneEvent. */
    method PopNext() returns (e: Option<ApiEvent>)
      requires Valid()
      modifies qRecv.list, qRecv.list.repr, qSend.list, qSend.list.repr
      ensures Valid() && Kept() && e == Next(old(State())) && State() == Popped(old(State()))
    {
      hide Table, LockQueue.Valid, LockQueue.Waiting;
      e := qRecv.Pop();
      if e.None? {
        e := qSend.Pop();
      }
    }

    /** handlerOneEvent. */
    method HandlerOneEvent() returns (handled: bool)
      requires Valid()
      modifies Footprint()
      ensures Valid() && Kept()
      ensures State() == Handled(old(State()), m) && handled == Next(old(State())).Some?
      decreases AllErrors(State()), 1, 0
    {
      hide Table, Handled, Stepped, AllErrors, Next, Popped;
      HandledMeans(State(), m);
      var e := PopNext();
      if e.None? {
        return false;
      }
      Step(e.value);
      return true;
    }
  }

  lemma HandledMeans(a: Env, m: Machines)
    ensures Next(a).None? ==> Handled(a, m) == a && Popped(a) == a
    ensures Next(a).Some? ==>
              Handled(a, m) == Stepped(Popped(a), Next(a).value, m) &&
              AllErrors(a) == AllErrors(Popped(a)) + if Next(a).value.Error? then 1 else 0
  {
    PoppedErrors(a);
    if Next(a).Some? {
      HandledSteps(a, m);
    }
  }
}
