/** The asynchronous operations of src/ayla/async.c on top of the timer list. */
module AsyncOps {
  import opened Options
  import opened TimerLists
  import opened Timers

  const TIMEOUT_RESULT_DEFAULT: int := -1

  /** The fields of an operation besides its timer; `C` stands for a callback with its argument. */
  datatype Op<C> = Op(active: bool, callback: Option<C>, timeoutResult: int)

  /** Operations sharing one timer list.  An operation is named by its timer. */
  datatype System<T(==), C> = System(ops: map<T, Op<C>>, timers: World<T>)

  datatype Event<T, C> =
    | Start(op: T, callback: C, timeoutMs: nat)
    | Finish(op: T, result: int)
    | SetTimeoutResult(op: T, result: int)
    | Expire

  /** Starts that succeeded and callbacks that were called. */
  datatype Entry<T, C> = Started(op: T, callback: C) | Called(op: T, callback: C, result: int)

  function OpStarted<C>(o: Op<C>, callback: C): Op<C> {
    o.(active := true, callback := Some(callback))
  }

  function OpFinished<C>(o: Op<C>): Op<C> {
    o.(active := false, callback := None)
  }

  /** The change of the timer list when an operation starts. */
  function StartTimers<T(==)>(w: World<T>, t: T, ms: nat, clock: nat -> nat): World<T> {
    if ms == 0 then w else Act(w, Set(t, ms), clock)
  }

  /** async_op_start. */
  function Starts<T(==), C>(s: System<T, C>, t: T, callback: C, ms: nat, clock: nat -> nat)
    : (System<T, C>, seq<Entry<T, C>>)
    requires t in s.ops
  {
    if s.ops[t].active then (s, [])
    else
      (System(s.ops[t := OpStarted(s.ops[t], callback)], StartTimers(s.timers, t, ms, clock)), [Started(t, callback)])
  }

  /** async_op_finish.  The callback is the last thing it calls, so whatever the callback does comes
      next in the run. */
  function Finishes<T(==), C>(s: System<T, C>, t: T, result: int, clock: nat -> nat): (System<T, C>, seq<Entry<T, C>>)
    requires t in s.ops
  {
    var o := s.ops[t];
    if !o.active then (s, [])
    else
      (System(s.ops[t := OpFinished(o)], Act(s.timers, Cancel(t), clock)),
       if o.callback.Some? then [Called(t, o.callback.value, result)] else [])
  }

  /** The first timer fires: async_op_timeout. */
  function Expires<T(==), C>(s: System<T, C>, clock: nat -> nat): (System<T, C>, seq<Entry<T, C>>)
    requires forall e :: e in s.timers.list ==> e.timer in s.ops
  {
    if s.timers.list == [] then (s, [])
    else
      var t := s.timers.list[0].timer;
      Finishes(s.(timers := s.timers.(list := s.timers.list[1..])), t, s.ops[t].timeoutResult, clock)
  }

  /** Timers are queued only for active operations, and these have a callback. */
  ghost predicate Sound<T, C>(s: System<T, C>) {
    && Good(s.timers)
    && (forall e :: e in s.timers.list ==> e.timer in s.ops && s.ops[e.timer].active)
    && (forall t :: t in s.ops ==> (s.ops[t].active <==> s.ops[t].callback.Some?))
  }

  predicate Known<T(==), C>(s: System<T, C>, e: Event<T, C>) {
    e.Expire? || e.op in s.ops
  }

  function Step<T(==), C>(s: System<T, C>, e: Event<T, C>, clock: nat -> nat): (System<T, C>, seq<Entry<T, C>>)
    requires Sound(s) && Known(s, e)
  {
    match e
    case Start(t, callback, ms) => Starts(s, t, callback, ms, clock)
    case Finish(t, result) => Finishes(s, t, result, clock)
    case SetTimeoutResult(t, result) => (s.(ops := s.ops[t := s.ops[t].(timeoutResult := result)]), [])
    case Expire => Expires(s, clock)
  }

  lemma StartKeeps<T, C>(s: System<T, C>, t: T, callback: C, ms: nat, clock: nat -> nat)
    requires Sound(s) && t in s.ops && Monotone(clock)
    ensures Sound(Starts(s, t, callback, ms, clock).0)
  {
    hide Good, Inserted, Without;
    if !s.ops[t].active && ms > 0 {
      ActKeeps(s.timers, Set(t, ms), clock);
      OrderedOf(s.timers);
      WithoutKeeps(s.timers.list, t);
      var rest := Without(s.timers.list, t);
      var e := TimerLists.Entry(t, clock(s.timers.looks) + ms, s.timers.armed);
      var list := Inserted(rest, e);
      assert Ordered(rest);
      forall x | x in list
        ensures x.timer in s.ops && (x.timer == t || s.ops[x.timer].active)
      {
        InsertedMember(rest, e, x);
        assert x in rest ==> x in s.timers.list;
      }
    }
  }

  lemma OrderedOf<T>(w: World<T>)
    requires Good(w)
    ensures Ordered(w.list)
  {
  }

  /** Also when the operation's own entry has just been taken off the list. */
  lemma FinishKeeps<T, C>(s: System<T, C>, t: T, result: int, clock: nat -> nat)
    requires Good(s.timers) && t in s.ops && Monotone(clock)
    requires forall e :: e in s.timers.list ==> e.timer in s.ops && s.ops[e.timer].active
    requires forall u :: u in s.ops ==> (s.ops[u].active <==> s.ops[u].callback.Some?)
    ensures Sound(Finishes(s, t, result, clock).0)
  {
    hide Good, Without;
    if s.ops[t].active {
      ActKeeps(s.timers, Cancel(t), clock);
      OrderedOf(s.timers);
      WithoutKeeps(s.timers.list, t);
      var rest := Without(s.timers.list, t);
      assert Ordered(rest);
      forall x | x in rest
        ensures x.timer in s.ops && x.timer != t && s.ops[x.timer].active
      {
        assert x in s.timers.list;
      }
    }
  }

  lemma StepKeeps<T, C>(s: System<T, C>, e: Event<T, C>, clock: nat -> nat)
    requires Sound(s) && Known(s, e) && Monotone(clock)
    ensures Sound(Step(s, e, clock).0) && Step(s, e, clock).0.ops.Keys == s.ops.Keys
  {
    hide Good, Act, Starts, Finishes;
    match e
    case Start(t, callback, ms) =>
      StartKeeps(s, t, callback, ms, clock);
      StartOps(s, t, callback, ms, clock);
    case Finish(t, result) =>
      FinishKeeps(s, t, result, clock);
      FinishOps(s, t, result, clock);
    case SetTimeoutResult(t, result) =>
    case Expire =>
      if s.timers.list != [] {
        var t := s.timers.list[0].timer;
        var s1 := s.(timers := s.timers.(list := s.timers.list[1..]));
        TailGood(s.timers);
        FinishKeeps(s1, t, s.ops[t].timeoutResult, clock);
        FinishOps(s1, t, s.ops[t].timeoutResult, clock);
      }
  }

  lemma StartOps<T, C>(s: System<T, C>, t: T, callback: C, ms: nat, clock: nat -> nat)
    requires t in s.ops
    ensures var (s1, log) := Starts(s, t, callback, ms, clock);
            s1.ops == (if s.ops[t].active then s.ops else s.ops[t := OpStarted(s.ops[t], callback)]) &&
            s1.ops.Keys == s.ops.Keys && log == if s.ops[t].active then [] else [Started(t, callback)]
  {
  }

  lemma FinishOps<T, C>(s: System<T, C>, t: T, result: int, clock: nat -> nat)
    requires t in s.ops
    ensures var (s1, log) := Finishes(s, t, result, clock);
            s1.ops == (if s.ops[t].active then s.ops[t := OpFinished(s.ops[t])] else s.ops) &&
            s1.ops.Keys == s.ops.Keys &&
            log == if s.ops[t].active && s.ops[t].callback.Some? then [Called(t, s.ops[t].callback.value, result)]
                   else []
  {
  }

  lemma TailGood<T>(w: World<T>)
    requires Good(w) && w.list != []
    ensures Good(w.(list := w.list[1..]))
  {
  }

  ghost predicate AllKnown<T, C>(s: System<T, C>, es: seq<Event<T, C>>) {
    forall e :: e in es ==> Known(s, e)
  }

  lemma KnownTail<T, C>(s: System<T, C>, es: seq<Event<T, C>>, s1: System<T, C>)
    requires AllKnown(s, es) && es != [] && s1.ops.Keys == s.ops.Keys
    ensures AllKnown(s1, es[1..])
  {
    forall e | e in es[1..]
      ensures Known(s1, e)
    {
      assert Known(s, e);
    }
  }

  function Run<T(==), C>(s: System<T, C>, es: seq<Event<T, C>>, clock: nat -> nat)
    : (p: (System<T, C>, seq<Entry<T, C>>))
    requires Sound(s) && AllKnown(s, es) && Monotone(clock)
    ensures Sound(p.0)
    decreases |es|
  {
    if es == [] then (s, [])
    else
      StepKeeps(s, es[0], clock);
      var (s1, log) := Step(s, es[0], clock);
      KnownTail(s, es, s1);
      var (s2, more) := Run(s1, es[1..], clock);
      (s2, log + more)
  }

  /** What one operation has open: the callback of a start that has not been called yet.  `None`
      outside means that the log broke the rule that starts and calls alternate. */
  function Follow<T(==), C(==)>(open: Option<C>, log: seq<Entry<T, C>>, t: T): Option<Option<C>>
    decreases |log|
  {
    if log == [] then Some(open)
    else if log[0].op != t then Follow(open, log[1..], t)
    else if log[0].Started? && open.None? then Follow(Some(log[0].callback), log[1..], t)
    else if log[0].Called? && open == Some(log[0].callback) then Follow(None, log[1..], t)
    else None
  }

  lemma {:induction false} FollowAppend<T, C>(open: Option<C>, a: seq<Entry<T, C>>, b: seq<Entry<T, C>>, t: T)
    ensures Follow(open, a + b, t)
         == if Follow(open, a, t).None? then None else Follow(Follow(open, a, t).value, b, t)
    decreases |a|
  {
    if a == [] {
      assert a + b == b;
    } else {
      assert (a + b)[1..] == a[1..] + b;
      if a[0].op != t {
        FollowAppend(open, a[1..], b, t);
      } else if a[0].Started? && open.None? {
        FollowAppend(Some(a[0].callback), a[1..], b, t);
      } else if a[0].Called? && open == Some(a[0].callback) {
        FollowAppend(None, a[1..], b, t);
      }
    }
  }

  lemma FollowOne<T, C>(open: Option<C>, e: Entry<T, C>, t: T)
    ensures Follow(open, [], t) == Some(open)
    ensures e.op != t ==> Follow(open, [e], t) == Some(open)
    ensures e.op == t && e.Started? && open.None? ==> Follow(open, [e], t) == Some(Some(e.callback))
    ensures e.op == t && e.Called? && open == Some(e.callback) ==> Follow(open, [e], t) == Some(None)
  {
    assert [e][1..] == [];
  }

  lemma StepFollows<T, C>(s: System<T, C>, e: Event<T, C>, clock: nat -> nat, t: T)
    requires Sound(s) && Known(s, e) && Monotone(clock) && t in s.ops
    ensures t in Step(s, e, clock).0.ops
    ensures Follow(s.ops[t].callback, Step(s, e, clock).1, t) == Some(Step(s, e, clock).0.ops[t].callback)
  {
    hide Good, Act, Starts, Finishes, Follow;
    match e
    case Start(u, callback, ms) =>
      StartOps(s, u, callback, ms, clock);
      FollowOne(s.ops[t].callback, Started(u, callback), t);
    case Finish(u, result) =>
      FinishOps(s, u, result, clock);
      if s.ops[u].active {
        FollowOne(s.ops[t].callback, Called(u, s.ops[u].callback.value, result), t);
      } else {
        FollowNothing<T, C>(s.ops[t].callback, t);
      }
    case SetTimeoutResult(u, result) => FollowNothing<T, C>(s.ops[t].callback, t);
    case Expire =>
      FollowNothing<T, C>(s.ops[t].callback, t);
      if s.timers.list != [] {
        var u := s.timers.list[0].timer;
        assert s.timers.list[0] in s.timers.list;
        FinishOps(s.(timers := s.timers.(list := s.timers.list[1..])), u, s.ops[u].timeoutResult, clock);
        FollowOne(s.ops[t].callback, Called(u, s.ops[u].callback.value, s.ops[u].timeoutResult), t);
      }
  }

  lemma FollowNothing<T, C>(open: Option<C>, t: T)
    ensures Follow(open, [], t) == Some(open)
  {
  }

  /** Main result: over any interleaving of starts, finishes and timeouts, including those that
      callbacks cause, every successful start is followed by exactly one call of its own callback
      before the next start, or is still open; and an operation has a timer queued only while it is
      active. */
  lemma {:induction false} EveryStartIsCalledOnce<T, C>(s: System<T, C>, es: seq<Event<T, C>>, clock: nat -> nat, t: T)
    requires Sound(s) && AllKnown(s, es) && Monotone(clock) && t in s.ops
    ensures var (s1, log) := Run(s, es, clock);
            && t in s1.ops
            && Follow(s.ops[t].callback, log, t) == Some(s1.ops[t].callback)
            && (s1.ops[t].active <==> s1.ops[t].callback.Some?)
            && ((exists e :: e in s1.timers.list && e.timer == t) ==> s1.ops[t].active)
    decreases |es|
  {
    hide Step, Follow, Good;
    if es == [] {
      FollowNothing<T, C>(s.ops[t].callback, t);
    } else {
      StepKeeps(s, es[0], clock);
      StepFollows(s, es[0], clock, t);
      var (s1, log) := Step(s, es[0], clock);
      KnownTail(s, es, s1);
      EveryStartIsCalledOnce(s1, es[1..], clock, t);
      FollowAppend(s.ops[t].callback, log, Run(s1, es[1..], clock).1, t);
    }
  }

  /** How often an operation was started, or called. */
  function Count<T(==), C>(log: seq<Entry<T, C>>, t: T, started: bool): nat
    decreases |log|
  {
    if log == [] then 0
    else (if log[0].op == t && log[0].Started? == started then 1 else 0) + Count(log[1..], t, started)
  }

  lemma {:induction false} FollowCounts<T, C>(open: Option<C>, log: seq<Entry<T, C>>, t: T)
    requires Follow(open, log, t).Some?
    ensures Count(log, t, true) + (if open.Some? then 1 else 0)
         == Count(log, t, false) + (if Follow(open, log, t).value.Some? then 1 else 0)
    decreases |log|
  {
    if log != [] {
      if log[0].op != t {
        FollowCounts(open, log[1..], t);
      } else if log[0].Started? {
        FollowCounts(Some(log[0].callback), log[1..], t);
      } else {
        FollowCounts(None, log[1..], t);
      }
    }
  }

  /** For an operation that starts out idle, starts and calls balance. */
  lemma StartsBalanceCalls<T, C>(s: System<T, C>, es: seq<Event<T, C>>, clock: nat -> nat, t: T)
    requires Sound(s) && AllKnown(s, es) && Monotone(clock) && t in s.ops && !s.ops[t].active
    ensures var (s1, log) := Run(s, es, clock);
            t in s1.ops && Count(log, t, true) == Count(log, t, false) + if s1.ops[t].active then 1 else 0
  {
    hide Good, Run;
    EveryStartIsCalledOnce(s, es, clock, t);
    FollowCounts(s.ops[t].callback, Run(s, es, clock).1, t);
  }

  // ---------------------------------------------------------------- timeouts

  /** A start that has not been answered: its callback, and when it times out, if it does. */
  datatype Pending<C> = Pending(callback: C, due: Option<nat>)

  /** What is pending, the timeout result of each operation, and the clock readings made so far. */
  datatype Plan<T(==), C> = Plan(pending: map<T, Pending<C>>, results: map<T, int>, looks: nat)

  /** The pending start of `t` is answered, if there is one. */
  function Answered<T(==), C>(p: Plan<T, C>, t: T, result: int): (Plan<T, C>, seq<Entry<T, C>>) {
    if t in p.pending then (p.(pending := p.pending - {t}), [Called(t, p.pending[t].callback, result)]) else (p, [])
  }

  /** What an event asks for, computed from events alone, with the timer that fires given by `first`: a start
      with a timeout is due that long after the clock reading made for it. */
  function Planned<T(==), C>(p: Plan<T, C>, e: Event<T, C>, first: Option<T>, clock: nat -> nat)
    : (Plan<T, C>, seq<Entry<T, C>>)
  {
    match e
    case Start(t, callback, ms) =>
      if t in p.pending then (p, [])
      else if ms == 0 then (p.(pending := p.pending[t := Pending(callback, None)]), [Started(t, callback)])
      else
        (p.(pending := p.pending[t := Pending(callback, Some(clock(p.looks) + ms))], looks := p.looks + 1),
         [Started(t, callback)])
    case Finish(t, result) => Answered(p, t, result)
    case SetTimeoutResult(t, result) => (p.(results := p.results[t := result]), [])
    case Expire =>
      if first.Some? && first.value in p.results then Answered(p, first.value, p.results[first.value]) else (p, [])
  }

  /** The list holds exactly one entry for each pending start with a timeout, with its deadline, and no other. */
  ghost predicate Matches<T(!new), C>(s: System<T, C>, p: Plan<T, C>) {
    && Sound(s) && p.results.Keys == s.ops.Keys && p.pending.Keys <= s.ops.Keys && p.looks == s.timers.looks
    && (forall t :: t in s.ops ==> s.ops[t].timeoutResult == p.results[t])
    && (forall t :: t in s.ops ==> s.ops[t].callback == if t in p.pending then Some(p.pending[t].callback) else None)
    && (forall e :: e in s.timers.list ==> e.timer in p.pending && p.pending[e.timer].due == Some(e.deadline))
    && (forall t :: t in p.pending && p.pending[t].due.Some? ==> exists e :: e in s.timers.list && e.timer == t)
  }

  function First<T, C>(s: System<T, C>): Option<T> {
    if s.timers.list == [] then None else Some(s.timers.list[0].timer)
  }

  /** What the list looks like after a timer is set or cancelled. */
  lemma ActExactly<T(!new)>(w: World<T>, t: T, ms: nat, clock: nat -> nat)
    requires Good(w)
    ensures var set1 := Act(w, Set(t, ms), clock);
            && set1.looks == w.looks + 1
            && (forall e :: e in set1.list <==>
                  (e in w.list && e.timer != t) || e == TimerLists.Entry(t, clock(w.looks) + ms, w.armed))
    ensures var cancelled := Act(w, Cancel(t), clock);
            cancelled.looks == w.looks && forall e :: e in cancelled.list <==> e in w.list && e.timer != t
  {
    hide Good, Without, Inserted;
    OrderedOf(w);
    WithoutKeeps(w.list, t);
    InsertedContents(Without(w.list, t), TimerLists.Entry(t, clock(w.looks) + ms, w.armed));
  }

  lemma StartMatches<T(!new), C>(s: System<T, C>, p: Plan<T, C>, t: T, callback: C, ms: nat, clock: nat -> nat)
    requires Matches(s, p) && t in s.ops && Monotone(clock)
    ensures var (s1, log) := Starts(s, t, callback, ms, clock);
            var (p1, planned) := Planned(p, Start(t, callback, ms), First(s), clock);
            Matches(s1, p1) && log == planned
  {
    hide Good, Act;
    StartKeeps(s, t, callback, ms, clock);
    if !s.ops[t].active && ms > 0 {
      ActExactly(s.timers, t, ms, clock);
      var e := TimerLists.Entry(t, clock(s.timers.looks) + ms, s.timers.armed);
      var list := Starts(s, t, callback, ms, clock).0.timers.list;
      assert e in list;
      assert forall x :: x in s.timers.list && x.timer != t ==> x in list;
    }
  }

  lemma FinishMatches<T(!new), C>(
    s: System<T, C>, s0: System<T, C>, p: Plan<T, C>, t: T, result: int, clock: nat -> nat)
    requires Matches(s0, p) && t in s.ops && Monotone(clock)
    requires s.ops == s0.ops && s.timers.looks == s0.timers.looks && Good(s.timers)
    requires forall e :: e in s.timers.list ==> e in s0.timers.list
    requires forall e :: e in s0.timers.list && e.timer != t ==> e in s.timers.list
    requires s == s0 || t in p.pending
    ensures var (s1, log) := Finishes(s, t, result, clock);
            var (p1, answered) := Answered(p, t, result);
            Matches(s1, p1) && log == answered
  {
    hide Good, Act;
    FinishKeeps(s, t, result, clock);
    ActExactly(s.timers, t, 0, clock);
    var s1 := Finishes(s, t, result, clock).0;
    var p1 := Answered(p, t, result).0;
    forall u | u in p1.pending && p1.pending[u].due.Some?
      ensures exists e :: e in s1.timers.list && e.timer == u
    {
      var e :| e in s0.timers.list && e.timer == u;
      assert e in s1.timers.list;
    }
  }

  /** Main result, one step: an operation has an entry in the list exactly while a start with a timeout is
      pending; it is due at the clock reading of that start plus the timeout; and what is started and what
      is called back, with which result, is what the plan says. */
  lemma StepMatches<T(!new), C>(s: System<T, C>, p: Plan<T, C>, e: Event<T, C>, clock: nat -> nat)
    requires Matches(s, p) && Known(s, e) && Monotone(clock)
    ensures var (s1, log) := Step(s, e, clock);
            var (p1, planned) := Planned(p, e, First(s), clock);
            Matches(s1, p1) && log == planned
  {
    hide Good, Act, Starts, Finishes;
    match e
    case Start(t, callback, ms) => StartMatches(s, p, t, callback, ms, clock);
    case Finish(t, result) => FinishMatches(s, s, p, t, result, clock);
    case SetTimeoutResult(t, result) => ResultMatches(s, p, t, result, clock);
    case Expire =>
      if s.timers.list != [] {
        ExpireMatches(s, p, clock);
      }
  }

  lemma ResultMatches<T(!new), C>(s: System<T, C>, p: Plan<T, C>, t: T, result: int, clock: nat -> nat)
    requires Matches(s, p) && t in s.ops && Monotone(clock)
    ensures Matches(Step(s, SetTimeoutResult(t, result), clock).0, p.(results := p.results[t := result]))
  {
    hide Good;
    StepKeeps(s, SetTimeoutResult(t, result), clock);
  }

  lemma ExpireMatches<T(!new), C>(s: System<T, C>, p: Plan<T, C>, clock: nat -> nat)
    requires Matches(s, p) && s.timers.list != [] && Monotone(clock)
    ensures var (s1, log) := Step(s, Expire, clock);
            var (p1, planned) := Planned(p, Expire, First(s), clock);
            Matches(s1, p1) && log == planned
  {
    hide Good, Finishes;
    var first := s.timers.list[0];
    assert first in s.timers.list;
    TailGood(s.timers);
    var s1 := s.(timers := s.timers.(list := s.timers.list[1..]));
    assert s.timers.list == [first] + s.timers.list[1..];
    assert forall e :: e in s1.timers.list ==> e in s.timers.list;
    assert forall e :: e in s.timers.list && e.timer != first.timer ==> e in s1.timers.list;
    FinishMatches(s1, s, p, first.timer, s.ops[first.timer].timeoutResult, clock);
  }

  /** The plan over a run. */
  function PlannedRun<T(==), C>(s: System<T, C>, p: Plan<T, C>, es: seq<Event<T, C>>, clock: nat -> nat)
    : (Plan<T, C>, seq<Entry<T, C>>)
    requires Sound(s) && AllKnown(s, es) && Monotone(clock)
    decreases |es|
  {
    if es == [] then (p, [])
    else
      StepKeeps(s, es[0], clock);
      var s1 := Step(s, es[0], clock).0;
      KnownTail(s, es, s1);
      var (p1, log) := Planned(p, es[0], First(s), clock);
      var (p2, more) := PlannedRun(s1, p1, es[1..], clock);
      (p2, log + more)
  }

  /** Main result: over every run the timer list and the log are what the plan says. */
  lemma {:induction false} RunMatches<T(!new), C>(
    s: System<T, C>, p: Plan<T, C>, es: seq<Event<T, C>>, clock: nat -> nat)
    requires Matches(s, p) && AllKnown(s, es) && Monotone(clock)
    ensures Matches(Run(s, es, clock).0, PlannedRun(s, p, es, clock).0)
    ensures Run(s, es, clock).1 == PlannedRun(s, p, es, clock).1
    decreases |es|
  {
    hide Step, Planned, Matches, Good;
    MatchesSound(s, p);
    if es != [] {
      StepKeeps(s, es[0], clock);
      StepMatches(s, p, es[0], clock);
      var s1 := Step(s, es[0], clock).0;
      KnownTail(s, es, s1);
      RunMatches(s1, Planned(p, es[0], First(s), clock).0, es[1..], clock);
    }
  }

  lemma MatchesSound<T(!new), C>(s: System<T, C>, p: Plan<T, C>)
    requires Matches(s, p)
    ensures Sound(s)
  {
  }

  /** Operations that have just been initialised match an empty plan. */
  lemma FreshMatches<T(!new), C>(ops: set<T>)
    ensures Matches(System(map t | t in ops :: Op<C>.Op(false, None, -1), World([], 0, 0)),
                    Plan(map[], map t | t in ops :: -1, 0))
  {
  }

  /** So from the start on the log is what the plan says. */
  lemma FromTheStart<T(!new), C>(ops: set<T>, es: seq<Event<T, C>>, clock: nat -> nat)
    requires Monotone(clock) && forall e :: e in es ==> e.Expire? || e.op in ops
    ensures var s: System<T, C> := System(map t | t in ops :: Op(false, None, -1), World([], 0, 0));
            var p: Plan<T, C> := Plan(map[], map t | t in ops :: -1, 0);
            && Sound(s) && AllKnown(s, es)
            && Matches(Run(s, es, clock).0, PlannedRun(s, p, es, clock).0)
            && Run(s, es, clock).1 == PlannedRun(s, p, es, clock).1
  {
    FreshMatches<T, C>(ops);
    var s: System<T, C> := System(map t | t in ops :: Op(false, None, -1), World([], 0, 0));
    var p: Plan<T, C> := Plan(map[], map t | t in ops :: -1, 0);
    RunMatches(s, p, es, clock);
  }

  /** The timer that fires is that of the pending start that is due first, and there is one exactly if some
      pending start has a timeout. */
  lemma FirstIsEarliest<T(!new), C>(s: System<T, C>, p: Plan<T, C>)
    requires Matches(s, p)
    ensures First(s).Some? <==> exists t :: t in p.pending && p.pending[t].due.Some?
    ensures First(s).Some? ==>
              var t := First(s).value;
              && t in p.pending && p.pending[t].due.Some?
              && forall u :: u in p.pending && p.pending[u].due.Some? ==>
                   p.pending[t].due.value <= p.pending[u].due.value
  {
    if s.timers.list != [] {
      var first := s.timers.list[0];
      assert first in s.timers.list;
      forall u | u in p.pending && p.pending[u].due.Some?
        ensures first.deadline <= p.pending[u].due.value
      {
        var e :| e in s.timers.list && e.timer == u;
      }
    }
  }

  // ---------------------------------------------------------------- the object

  /** struct async_op. */
  class AsyncOp<C(==)> {
    var active: bool
    var callback: Option<C>
    var timeoutResult: int
    const timers: TimerHead?
    const timer: Timer

    function Fields(): Op<C>
      reads this
    {
      Op(active, callback, timeoutResult)
    }

    ghost predicate Valid()
      reads this, Shared()
    {
      (timers != null ==> timers.Valid() && timer in timers.pool) && (active <==> callback.Some?)
    }

    /** What it shares with the other operations on the same timer list. */
    ghost function Shared(): set<object>
      reads this, timers
    {
      if timers == null then {} else {timers} + timers.pool
    }

    /** async_op_init.  Without timers no operation may have a timeout. */
    constructor (timers: TimerHead?, timer: Timer)
      requires timers != null ==> timers.Valid() && timer in timers.pool
      ensures Valid() && Fields() == Op(false, None, -1)
      ensures this.timers == timers && this.timer == timer
    {
      active, callback, timeoutResult := false, None, TIMEOUT_RESULT_DEFAULT;
      this.timers, this.timer := timers, timer;
    }

    /** async_op_start. */
    method Start(cb: C, timeoutMs: nat, clock: nat -> nat) returns (code: int)
      requires Valid() && Monotone(clock) && (timeoutMs != 0 ==> timers != null)
      modifies this, Shared()
      ensures Valid() && code == if old(active) then -1 else 0
      ensures Fields() == if old(active) then old(Fields()) else OpStarted(old(Fields()), cb)
      ensures timers != null ==>
                timers.State() == if old(active) then old(timers.State())
                                  else StartTimers(old(timers.State()), timer, timeoutMs, clock)
    {
      hide Act, Linked;
      if active {
        return -1;
      }
      active, callback := true, Some(cb);
      if timeoutMs != 0 {
        timers.Set(timer, timeoutMs, clock);
      }
      return 0;
    }

    /** async_op_finish; `called` is the callback it calls last. */
    method Finish(clock: nat -> nat) returns (code: int, called: Option<C>)
      requires Valid()
      modifies this, Shared()
      ensures Valid() && code == if old(active) then 0 else -1
      ensures !old(active) ==> Fields() == old(Fields()) && called == None
      ensures old(active) ==> Fields() == OpFinished(old(Fields())) && called == old(callback)
      ensures timers != null ==>
                timers.State() == if old(active) then Act(old(timers.State()), Cancel(timer), clock)
                                  else old(timers.State())
    {
      hide Act, Linked;
      if !active {
        return -1, None;
      }
      if timers != null {
        timers.CancelActs(timer, clock);
      }
      active := false;
      called := callback;
      if callback.Some? {
        callback := None;
      }
      code := 0;
    }

    /** async_op_timeout, the handler of the timer. */
    method Timeout(clock: nat -> nat) returns (called: Option<C>, result: int)
      requires Valid()
      modifies this, Shared()
      ensures Valid() && result == old(timeoutResult)
      ensures !old(active) ==> Fields() == old(Fields()) && called == None
      ensures old(active) ==> Fields() == OpFinished(old(Fields())) && called == old(callback)
      ensures timers != null ==>
                timers.State() == if old(active) then Act(old(timers.State()), Cancel(timer), clock)
                                  else old(timers.State())
    {
      hide Act, Linked;
      result := timeoutResult;
      var code;
      code, called := Finish(clock);
    }

    /** async_op_set_timeout_result. */
    method SetTimeoutResult(result: int)
      requires Valid()
      modifies `timeoutResult
      ensures Valid() && Fields() == old(Fields()).(timeoutResult := result)
    {
      timeoutResult := result;
    }
  }
}
