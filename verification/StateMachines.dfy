/** The table-driven state machine of product/zwave/src/statemachine.c.  Handlers are named instead
    of pointed to; calling them is left to the owner of the table. */
module StateMachines {
  import opened Options

  datatype Handler<+H> = Handler(eid: int, action: Option<H>, transition: Option<H>)

  /** A state of the table; `param` is what its handlers keep there. */
  datatype TableState<+H, +P> = TableState(stateId: int, handlers: seq<Handler<H>>, param: Option<P>)

  /** What state_machine_step calls for an event. */
  datatype Choice<+H> = Choice(action: Option<H>, transition: Option<H>)

  /** The first handler for an event. */
  function FirstHandler<H>(hs: seq<Handler<H>>, eid: int): (r: Option<Handler<H>>)
    ensures r.Some? ==> r.value in hs && r.value.eid == eid
    ensures r.None? ==> forall h :: h in hs ==> h.eid != eid
    decreases |hs|
  {
    if hs == [] then None else if hs[0].eid == eid then Some(hs[0]) else FirstHandler(hs[1..], eid)
  }

  /** The search of state_machine_step goes on after a hit, so a later state of the same name wins. */
  function Chosen<H, P>(states: seq<TableState<H, P>>, state: int, eid: int, so: Choice<H>): Choice<H>
    decreases |states|
  {
    if states == [] then so
    else
      var h := if states[0].stateId == state then FirstHandler(states[0].handlers, eid) else None;
      Chosen(states[1..], state, eid, if h.Some? then Choice(h.value.action, h.value.transition) else so)
  }

  ghost predicate DistinctStates<H, P>(states: seq<TableState<H, P>>) {
    forall i, j :: 0 <= i < j < |states| ==> states[i].stateId != states[j].stateId
  }

  lemma {:induction false} NoSuchState<H, P>(states: seq<TableState<H, P>>, state: int, eid: int, so: Choice<H>)
    requires forall s :: s in states ==> s.stateId != state
    ensures Chosen(states, state, eid, so) == so
    decreases |states|
  {
    if states != [] {
      NoSuchState(states[1..], state, eid, so);
    }
  }

  /** In a table whose states have different names, the handlers called are those of the first entry
      for the event in the one state of that name, and none if there is no such entry. */
  lemma {:induction false} ChosenIsUnique<H, P>(states: seq<TableState<H, P>>, k: nat, eid: int, so: Choice<H>)
    requires DistinctStates(states) && k < |states|
    ensures var h := FirstHandler(states[k].handlers, eid);
            var c := if h.Some? then Choice(h.value.action, h.value.transition) else so;
            Chosen(states, states[k].stateId, eid, so) == c
    decreases k
  {
    if k == 0 {
      var h := FirstHandler(states[0].handlers, eid);
      NoSuchState(states[1..], states[0].stateId, eid,
                  if h.Some? then Choice(h.value.action, h.value.transition) else so);
    } else {
      ChosenIsUnique(states[1..], k - 1, eid, so);
    }
  }

  /** stStateMachine_t. */
  class StateMachine<H, P> {
    var state: int
    const initState: int
    var states: seq<TableState<H, P>>

    constructor (initState: int, states: seq<TableState<H, P>>)
      ensures this.initState == initState && state == initState && this.states == states
    {
      this.initState, this.states := initState, states;
      state := initState;
    }

    /** state_machine_reset. */
    method Reset()
      modifies this
      ensures state == initState && |states| == |old(states)|
      ensures forall i :: 0 <= i < |states| ==> states[i] == old(states)[i].(param := None)
    {
      state := initState;
      var i := 0;
      while i < |states|
        invariant 0 <= i <= |states| == |old(states)| && state == initState
        invariant forall j :: 0 <= j < i ==> states[j] == old(states)[j].(param := None)
        invariant forall j :: i <= j < |states| ==> states[j] == old(states)[j]
      {
        states := states[i := states[i].(param := None)];
        i := i + 1;
      }
    }

    /** The search at the start of state_machine_step. */
    method Choose(eid: int) returns (c: Choice<H>)
      ensures c == Chosen(states, state, eid, Choice(None, None))
    {
      c := Choice(None, None);
      var j := 0;
      assert states[0..] == states;
      while j < |states|
        invariant 0 <= j <= |states|
        invariant Chosen(states[j..], state, eid, c) == Chosen(states, state, eid, Choice(None, None))
      {
        assert states[j..][1..] == states[j + 1..];
        if states[j].stateId == state {
          var h := FindHandler(states[j].handlers, eid);
          if h.Some? {
            c := Choice(h.value.action, h.value.transition);
          }
        }
        j := j + 1;
      }
    }

    /** Its inner loop. */
    method FindHandler(hs: seq<Handler<H>>, eid: int) returns (h: Option<Handler<H>>)
      ensures h == FirstHandler(hs, eid)
    {
      var i := 0;
      assert hs[0..] == hs;
      while i < |hs|
        invariant 0 <= i <= |hs| && FirstHandler(hs[i..], eid) == FirstHandler(hs, eid)
      {
        if hs[i].eid == eid {
          return Some(hs[i]);
        }
        assert hs[i..][1..] == hs[i + 1..];
        i := i + 1;
      }
      h := None;
    }

    /** state_machine_search_state: the position of the first state of that name. */
    method SearchState(sid: int) returns (found: Option<nat>)
      ensures found.Some? ==> found.value < |states| && states[found.value].stateId == sid
      ensures found.Some? ==> forall j :: 0 <= j < found.value ==> states[j].stateId != sid
      ensures found.None? ==> forall j :: 0 <= j < |states| ==> states[j].stateId != sid
    {
      var i := 0;
      while i < |states|
        invariant 0 <= i <= |states| && forall j :: 0 <= j < i ==> states[j].stateId != sid
      {
        if states[i].stateId == sid {
          return Some(i);
        }
        i := i + 1;
      }
      found := None;
    }
  }
}
