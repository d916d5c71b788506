/** What the sender of Session.dfy does over whole runs. */
module SessionRuns {
  import opened Options
  import opened Frames
  import opened Sessions

  datatype Sort = Sending | Ending | Losing | Receiving

  function SortOf(a: Action): Sort {
    match a
    case Transmit(_) => Sending
    case Complete(_) => Ending
    case Drop(_) => Losing
    case _ => Receiving
  }

  /** The actions of one sort, in order. */
  function Only(acts: seq<Action>, s: Sort): (r: seq<Action>)
    ensures forall a :: a in r ==> SortOf(a) == s
    decreases |acts|
  {
    if acts == [] then [] else (if SortOf(acts[0]) == s then [acts[0]] else []) + Only(acts[1..], s)
  }

  lemma {:induction false} OnlyAppend(a: seq<Action>, b: seq<Action>, s: Sort)
    ensures Only(a + b, s) == Only(a, s) + Only(b, s)
    decreases |a|
  {
    if a == [] {
      assert a + b == b;
    } else {
      assert (a + b)[1..] == a[1..] + b;
      OnlyAppend(a[1..], b, s);
    }
  }

  lemma {:induction false} RunAppend(h: Host, a: seq<Event>, b: seq<Event>)
    requires HostOk(h)
    ensures var (h1, acts1) := Run(h, a); var (h2, acts2) := Run(h1, b); Run(h, a + b) == (h2, acts1 + acts2)
    decreases |a|
  {
    hide Step, HostOk;
    if a == [] {
      assert a + b == b && [] + Run(h, b).1 == Run(h, b).1;
    } else {
      assert (a + b)[1..] == a[1..] + b;
      StepKeeps(h, a[0]);
      var (h1, acts) := Step(h, a[0]);
      RunAppend(h1, a[1..], b);
      var (h2, more) := Run(h1, a[1..]);
      assert acts + (more + Run(h2, b).1) == (acts + more) + Run(h2, b).1;
    }
  }

  lemma RunNext(h: Host, es: seq<Event>)
    requires HostOk(h) && es != []
    ensures HostOk(Step(h, es[0]).0)
    ensures var (h1, acts) := Step(h, es[0]); var (h2, more) := Run(h1, es[1..]); Run(h, es) == (h2, acts + more)
  {
    hide Step, HostOk;
    StepKeeps(h, es[0]);
  }

  // ---------------------------------------------------------------- stop and wait

  /** The textbook sender: repeat until acknowledged or out of attempts. */
  datatype Arq = Trying(sent: nat) | Over(sent: nat, verdict: FrameError)

  function Tally(a: Arq, v: FrameError, budget: nat): Arq {
    if a.Over? then a
    else if v == SendAcked || a.sent >= budget then Over(a.sent, v)
    else Trying(a.sent + 1)
  }

  function TallyAll(a: Arq, vs: seq<FrameError>, budget: nat): (r: Arq)
    ensures r.sent >= a.sent
    decreases |vs|
  {
    if vs == [] then a else TallyAll(Tally(a, vs[0], budget), vs[1..], budget)
  }

  /** It never sends more often than allowed, and gives up only after the last attempt. */
  lemma {:induction false} TallyBounds(a: Arq, vs: seq<FrameError>, budget: nat)
    requires 1 <= a.sent <= budget && (a.Over? ==> a.verdict == SendAcked || a.sent == budget)
    ensures var r := TallyAll(a, vs, budget);
            1 <= r.sent <= budget && (r.Over? ==> r.verdict == SendAcked || r.sent == budget)
    decreases |vs|
  {
    if vs != [] {
      TallyBounds(Tally(a, vs[0], budget), vs[1..], budget);
    }
  }

  /** The attempts a frame is given: the counter starts at what the frame carries. */
  function Budget(f: Frame): (n: nat)
    ensures n >= 1
  {
    if f.tries >= MAX_SEND_TRY_COUNT - 1 then 1 else MAX_SEND_TRY_COUNT - f.tries
  }

  /** The verdict an event carries, if any: a matter of the receiver and the timer alone. */
  function VerdictOf(rx: Receiver, e: Event): (Receiver, Option<FrameError>)
    requires RxConsistent(rx) && !e.Post?
  {
    match e
    case Arrived(b) => var (rx1, out) := RxStep(rx, b); (rx1, if out.Verdict? then Some(out.error) else None)
    case RecvTimer => (RxExpire(rx).0, None)
    case SendTimer => (rx, Some(SendTimedOut))
  }

  ghost predicate Quiet(es: seq<Event>) {
    forall e :: e in es ==> !e.Post?
  }

  function Verdicts(rx: Receiver, es: seq<Event>): seq<FrameError>
    requires RxConsistent(rx) && Quiet(es)
    decreases |es|
  {
    if es == [] then []
    else
      VerdictKeeps(rx, es[0]);
      var (rx1, v) := VerdictOf(rx, es[0]);
      (if v.Some? then [v.value] else []) + Verdicts(rx1, es[1..])
  }

  lemma VerdictKeeps(rx: Receiver, e: Event)
    requires RxConsistent(rx) && !e.Post?
    ensures RxConsistent(VerdictOf(rx, e).0)
  {
    hide RxStep, RxExpire, RxConsistent;
    match e
    case Arrived(b) => RxKeeps(rx, Arrive(b));
    case RecvTimer => RxKeeps(rx, Expire);
    case SendTimer =>
  }

  lemma OnlyOf(a: Action, b: Action, s: Sort)
    ensures Only([], s) == []
    ensures Only([a], s) == if SortOf(a) == s then [a] else []
    ensures Only([a, b], s) == (if SortOf(a) == s then [a] else []) + (if SortOf(b) == s then [b] else [])
  {
    assert [a][1..] == [] && [a, b][1..] == [b] && [b][1..] == [];
  }

  /** An event acts on the sender through its verdict and in no other way. */
  lemma StepByVerdict(h: Host, e: Event)
    requires HostOk(h) && !e.Post?
    ensures var (rx, v) := VerdictOf(h.rx, e); var h1 := h.(rx := rx);
            if v.Some? then Step(h, e) == Judge(h1, v.value)
            else Step(h, e).0 == h1 && forall s :: s != Receiving ==> Only(Step(h, e).1, s) == []
  {
    hide RxStep, RxConsistent, Judge, Report;
    match e
    case Arrived(b) =>
      var (rx, out) := RxStep(h.rx, b);
      if out.Verdict? {
        VerdictReported(h.(rx := rx), out);
      } else {
        ReportIsQuiet(h.(rx := rx), out);
      }
    case RecvTimer =>
      var (rx, out) := RxExpire(h.rx);
      ReportIsQuiet(h.(rx := rx), out);
    case SendTimer =>
      assert h.(rx := h.rx) == h;
  }

  lemma VerdictReported(h: Host, out: Output)
    requires out.Verdict?
    ensures Report(h, out) == Judge(h, out.error)
  {
  }

  lemma ReportIsQuiet(h: Host, out: Output)
    requires !out.Verdict?
    ensures Report(h, out).0 == h && forall s :: s != Receiving ==> Only(Report(h, out).1, s) == []
  {
    forall s | s != Receiving
      ensures Only(Report(h, out).1, s) == []
    {
      match out
      case Nothing =>
      case Delivered(p, error) =>
        OnlyOf(Acknowledge, Deliver(p, error), s);
        OnlyOf(Deliver(p, error), Acknowledge, s);
        assert error == NoError ==> Report(h, out).1 == [Acknowledge, Deliver(p, error)];
        assert error != NoError ==> Report(h, out).1 == [Deliver(p, error)];
    }
  }

  function Repeat<T>(x: T, n: nat): (s: seq<T>)
    ensures |s| == n && forall i :: 0 <= i < n ==> s[i] == x
  {
    seq(n, _ => x)
  }

  /** Without new frames an idle sender stays idle and says nothing. */
  lemma {:induction false} IdleStaysIdle(h: Host, es: seq<Event>)
    requires HostOk(h) && h.flight.None? && Quiet(es)
    ensures Run(h, es).0.flight.None?
    ensures forall s :: s != Receiving ==> Only(Run(h, es).1, s) == []
    decreases |es|
  {
    hide Step, HostOk, VerdictOf, Only;
    forall s
      ensures Only([], s) == []
    {
      OnlyOf(Acknowledge, Acknowledge, s);
    }
    if es != [] {
      IdleStep(h, es[0]);
      RunNext(h, es);
      var (h1, acts) := Step(h, es[0]);
      IdleStaysIdle(h1, es[1..]);
      forall s | s != Receiving
        ensures Only(Run(h, es).1, s) == []
      {
        OnlyAppend(acts, Run(h1, es[1..]).1, s);
      }
    }
  }

  lemma IdleStep(h: Host, e: Event)
    requires HostOk(h) && h.flight.None? && !e.Post?
    ensures Step(h, e).0.flight.None? && forall s :: s != Receiving ==> Only(Step(h, e).1, s) == []
  {
    hide Step, VerdictOf;
    StepByVerdict(h, e);
  }

  /** The frame `f` after it has gone out `n` times and been judged all but the last time. */
  ghost predicate Outstanding(h: Host, f: Frame, n: nat) {
    && HostOk(h) && h.owed && h.waiting == [] && h.flight.Some?
    && 1 <= n <= Budget(f)
    && h.flight.value == f.Sent().(error := h.flight.value.error, tries := f.tries + n - 1)
  }

  /** What is promised about a run: as many repetitions as the textbook sender makes, and one
      completion, with the deciding verdict, exactly when it is over. */
  ghost predicate Follows(h: Host, acts: seq<Action>, f: Frame, n: nat, a: Arq)
    requires a.sent >= n
  {
    && Only(acts, Sending) == Repeat(Transmit(f.Wire()), a.sent - n)
    && Only(acts, Losing) == []
    && (a.Trying? ==> Only(acts, Ending) == [] && Outstanding(h, f, a.sent))
    && (a.Over? ==> h.flight.None? && h.waiting == [] &&
                    Only(acts, Ending) == [Complete(f.Sent().(error := a.verdict, tries := f.tries + a.sent))])
  }

  lemma VerdictFollows(h: Host, f: Frame, n: nat, v: FrameError)
    requires Outstanding(h, f, n)
    ensures HostOk(Judge(h, v).0)
    ensures Follows(Judge(h, v).0, Judge(h, v).1, f, n, Tally(Trying(n), v, Budget(f)))
  {
    hide Only, RxConsistent, Frame.Sent, Frame.Wire;
    var g := h.flight.value;
    ResendSame(f, g.error, g.tries);
    ResendSame(f, v, f.tries + n);
    assert g.Judged(v) == f.Sent().(error := v, tries := f.tries + n);
    forall s
      ensures var t := Transmit(f.Wire()); Only([t], s) == if s == Sending then [t] else []
      ensures var c := Complete(g.Judged(v)); Only([c], s) == if s == Ending then [c] else []
    {
      OnlyOf(Transmit(f.Wire()), Acknowledge, s);
      OnlyOf(Complete(g.Judged(v)), Acknowledge, s);
    }
    assert [] + [Complete(g.Judged(v))] == [Complete(g.Judged(v))];
  }

  /** One event. */
  lemma EventFollows(h: Host, f: Frame, n: nat, e: Event)
    requires Outstanding(h, f, n) && !e.Post?
    ensures HostOk(Step(h, e).0) && Step(h, e).0.rx == VerdictOf(h.rx, e).0
    ensures var v := VerdictOf(h.rx, e).1;
            Follows(Step(h, e).0, Step(h, e).1, f, n,
                    if v.Some? then Tally(Trying(n), v.value, Budget(f)) else Trying(n))
  {
    hide Only, Step, VerdictOf, RxConsistent, Tally, Budget, Frame.Sent, Frame.Wire, Judge;
    StepKeeps(h, e);
    StepByVerdict(h, e);
    var (rx, v) := VerdictOf(h.rx, e);
    VerdictKeeps(h.rx, e);
    var h1 := h.(rx := rx);
    assert Outstanding(h1, f, n);
    if v.Some? {
      VerdictFollows(h1, f, n, v.value);
      JudgeKeepsReceiver(h1, v.value);
    }
  }

  lemma JudgeKeepsReceiver(h: Host, v: FrameError)
    ensures Judge(h, v).0.rx == h.rx
  {
  }

  lemma TallyNext(rx: Receiver, es: seq<Event>, a: Arq, budget: nat)
    requires RxConsistent(rx) && Quiet(es) && es != []
    ensures RxConsistent(VerdictOf(rx, es[0]).0)
    ensures var (rx1, v) := VerdictOf(rx, es[0]);
            var a1 := if v.Some? then Tally(a, v.value, budget) else a;
            TallyAll(a, Verdicts(rx, es), budget) == TallyAll(a1, Verdicts(rx1, es[1..]), budget)
  {
    hide VerdictOf, RxConsistent, Tally;
    VerdictKeeps(rx, es[0]);
    var (rx1, v) := VerdictOf(rx, es[0]);
    var rest := Verdicts(rx1, es[1..]);
    if v.Some? {
      assert ([v.value] + rest)[1..] == rest;
    } else {
      assert [] + rest == rest;
    }
  }

  lemma {:induction false} TallyOver(a: Arq, vs: seq<FrameError>, budget: nat)
    requires a.Over?
    ensures TallyAll(a, vs, budget) == a
    decreases |vs|
  {
    if vs != [] {
      TallyOver(a, vs[1..], budget);
    }
  }

  lemma RepeatAppend<T>(x: T, m: nat, n: nat)
    ensures Repeat(x, m) + Repeat(x, n) == Repeat(x, m + n)
  {
  }

  lemma {:induction false} OutstandingFollows(h: Host, f: Frame, n: nat, es: seq<Event>)
    requires Outstanding(h, f, n) && Quiet(es)
    ensures Follows(Run(h, es).0, Run(h, es).1, f, n, TallyAll(Trying(n), Verdicts(h.rx, es), Budget(f)))
    decreases |es|
  {
    hide Only, Step, VerdictOf, RxConsistent, Repeat, Budget, Tally, TallyAll, Verdicts, Frame.Sent, Frame.Wire;
    if es == [] {
      NothingFollows(h, f, n);
    } else {
      var (rx, v) := VerdictOf(h.rx, es[0]);
      EventFollows(h, f, n, es[0]);
      RunNext(h, es);
      var (h1, acts) := Step(h, es[0]);
      var (h2, more) := Run(h1, es[1..]);
      var a1 := if v.Some? then Tally(Trying(n), v.value, Budget(f)) else Trying(n);
      TallyNext(h.rx, es, Trying(n), Budget(f));
      OnlyAppend(acts, more, Sending);
      OnlyAppend(acts, more, Ending);
      OnlyAppend(acts, more, Losing);
      if a1.Trying? {
        OutstandingFollows(h1, f, a1.sent, es[1..]);
        RepeatAppend(Transmit(f.Wire()), a1.sent - n,
                     TallyAll(a1, Verdicts(rx, es[1..]), Budget(f)).sent - a1.sent);
      } else {
        IdleStaysIdle(h1, es[1..]);
        TallyOver(a1, Verdicts(rx, es[1..]), Budget(f));
      }
    }
  }

  lemma NothingFollows(h: Host, f: Frame, n: nat)
    requires Outstanding(h, f, n)
    ensures Follows(Run(h, []).0, Run(h, []).1, f, n, TallyAll(Trying(n), Verdicts(h.rx, []), Budget(f)))
  {
    hide Outstanding;
    assert Repeat(Transmit(f.Wire()), 0) == [];
  }

  /** Main result: a frame handed to an idle sender is transmitted, over any bytes and timeouts,
      exactly as often as the textbook sender would do it, always as the same bytes; it is reported
      once, when an ACK arrives or the last attempt has failed, and then the sender is idle again.
      Nothing is lost. */
  lemma OneFrameIsStopAndWait(h: Host, f: Frame, es: seq<Event>)
    requires HostOk(h) && h.flight.None? && Quiet(es)
    ensures var (h1, acts) := Run(h, [Post(f)] + es);
            var a := TallyAll(Trying(1), Verdicts(h.rx, es), Budget(f));
            && 1 <= a.sent <= Budget(f)
            && Only(acts, Sending) == Repeat(Transmit(f.Wire()), a.sent)
            && Only(acts, Losing) == []
            && (a.Trying? ==> Only(acts, Ending) == [] && h1.flight.Some?)
            && (a.Over? ==> (a.verdict == SendAcked || a.sent == Budget(f)) && h1.flight.None? && h1.waiting == [] &&
                            Only(acts, Ending)
                            == [Complete(f.Sent().(error := a.verdict, tries := f.tries + a.sent))])
  {
    hide Only, VerdictOf, RxConsistent, Repeat, Budget, Tally, TallyAll, Verdicts, Run, Frame.Sent, Frame.Wire;
    var h0 := Host(h.rx, Some(f.Sent()), true, []);
    var t := [Transmit(f.Wire())];
    assert ([Post(f)] + es)[1..] == es;
    RunNext(h, [Post(f)] + es);
    ResendSame(f, f.error, f.tries);
    SentKeeps(f);
    assert Outstanding(h0, f, 1);
    OutstandingFollows(h0, f, 1, es);
    TallyBounds(Trying(1), Verdicts(h.rx, es), Budget(f));
    var more := Run(h0, es).1;
    forall s
      ensures Only(t + more, s) == (if s == Sending then t else []) + Only(more, s)
    {
      OnlyAppend(t, more, s);
      OnlyOf(t[0], t[0], s);
    }
    RepeatAppend(Transmit(f.Wire()), 1, TallyAll(Trying(1), Verdicts(h.rx, es), Budget(f)).sent - 1);
    assert Repeat(Transmit(f.Wire()), 1) == t;
  }

  /** How many verdicts come before the first ACK. */
  function Refusals(vs: seq<FrameError>): (k: nat)
    ensures k <= |vs|
    decreases |vs|
  {
    if vs == [] || vs[0] == SendAcked then 0 else 1 + Refusals(vs[1..])
  }

  /** The textbook sender in closed form. */
  lemma {:induction false} TallyExactly(n: nat, vs: seq<FrameError>, budget: nat)
    requires 1 <= n <= budget
    ensures var k, room := Refusals(vs), budget - n + 1;
            TallyAll(Trying(n), vs, budget) ==
            if k >= room then Over(budget, vs[room - 1]) else if k < |vs| then Over(n + k, SendAcked) else Trying(n + k)
    decreases |vs|
  {
    hide TallyAll;
    TallyUnfolds(Trying(n), vs, budget);
    if vs != [] {
      var a := Tally(Trying(n), vs[0], budget);
      if a.Over? {
        TallyOver(a, vs[1..], budget);
      } else {
        TallyExactly(n + 1, vs[1..], budget);
      }
    }
  }

  lemma TallyUnfolds(a: Arq, vs: seq<FrameError>, budget: nat)
    ensures TallyAll(a, vs, budget) == if vs == [] then a else TallyAll(Tally(a, vs[0], budget), vs[1..], budget)
  {
  }

  /** Main result, in numbers: a frame that has not been tried goes out at most four times.  It is reported as
      acknowledged if and only if an ACK comes before the fourth other verdict, and as failed if and only
      if four others come first; then the fourth is what is reported. */
  lemma FourTries(h: Host, f: Frame, es: seq<Event>)
    requires HostOk(h) && h.flight.None? && Quiet(es) && f.tries == 0
    ensures var (h1, acts) := Run(h, [Post(f)] + es);
            var vs := Verdicts(h.rx, es);
            var k := Refusals(vs);
            && Only(acts, Sending) == Repeat(Transmit(f.Wire()), if k < 4 then k + 1 else 4)
            && Only(acts, Losing) == []
            && Only(acts, Ending) ==
               (if k >= 4 then [Complete(f.Sent().(error := vs[3], tries := 4))]
                else if k < |vs| then [Complete(f.Sent().(error := SendAcked, tries := k + 1))]
                else [])
            && (h1.flight.None? <==> k >= 4 || k < |vs|)
  {
    hide Only, VerdictOf, RxConsistent, Repeat, Tally, TallyAll, Verdicts, Run, Frame.Sent, Frame.Wire;
    OneFrameIsStopAndWait(h, f, es);
    TallyExactly(1, Verdicts(h.rx, es), 4);
  }

  /** What a control byte or the send timer says about a frame. */
  function VerdictIn(e: Event): FrameError {
    if e == Arrived(0x06) then SendAcked
    else if e == Arrived(0x15) then SendNaked
    else if e == Arrived(0x18) then SendCancelled
    else SendTimedOut
  }

  /** Of control bytes and send timeouts each is a verdict. */
  lemma {:induction false} ControlVerdicts(rx: Receiver, es: seq<Event>)
    requires RxConsistent(rx) && rx.state.Hunt?
    requires forall e :: e in es ==> e in {Arrived(0x06), Arrived(0x15), Arrived(0x18), SendTimer}
    ensures Quiet(es) && Verdicts(rx, es) == seq(|es|, i requires 0 <= i < |es| => VerdictIn(es[i]))
    decreases |es|
  {
    hide RxConsistent, RxHunt;
    if es != [] {
      assert es[0] in es;
      VerdictKeeps(rx, es[0]);
      if es[0].Arrived? {
        HuntAnswers(rx, es[0].b);
      }
      assert VerdictOf(rx, es[0]) == (rx, Some(VerdictIn(es[0])));
      assert forall e :: e in es[1..] ==> e in es;
      ControlVerdicts(rx, es[1..]);
      var all := seq(|es|, i requires 0 <= i < |es| => VerdictIn(es[i]));
      assert all == [VerdictIn(es[0])] + Verdicts(rx, es[1..]);
    }
  }

  lemma SentKeeps(f: Frame)
    ensures f.Sent().tries == f.tries && f.Sent().error == f.error
    ensures f.Sent().kind == f.kind && f.Sent().cmd == f.cmd && f.Sent().payload == f.payload
  {
    hide Sum;
  }
}
