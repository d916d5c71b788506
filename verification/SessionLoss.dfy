/** Frames queued behind one another: none vanishes unaccounted for, and exactly when the double
    pop of product/zwave/src/session.c throws one away. */
module SessionLoss {
  import opened Options
  import opened Frames
  import opened Sessions
  import opened SessionRuns

  /** What identifies a frame while its bookkeeping fields change. */
  datatype Core = Core(kind: Byte, cmd: Byte, payload: seq<Byte>)

  function CoreOf(f: Frame): Core {
    Core(f.kind, f.cmd, f.payload)
  }

  function Cores(fs: seq<Frame>): multiset<Core>
    decreases |fs|
  {
    if fs == [] then multiset{} else multiset{CoreOf(fs[0])} + Cores(fs[1..])
  }

  lemma {:induction false} CoresAppend(a: seq<Frame>, b: seq<Frame>)
    ensures Cores(a + b) == Cores(a) + Cores(b)
    decreases |a|
  {
    if a == [] {
      assert a + b == b;
    } else {
      assert (a + b)[1..] == a[1..] + b;
      CoresAppend(a[1..], b);
    }
  }

  /** The frames in the sender's hands. */
  function Held(h: Host): multiset<Core> {
    (if h.flight.Some? then multiset{CoreOf(h.flight.value)} else multiset{}) + Cores(h.waiting)
  }

  /** The frames handed over during a run. */
  function Given(es: seq<Event>): multiset<Core>
    decreases |es|
  {
    if es == [] then multiset{}
    else (if es[0].Post? then multiset{CoreOf(es[0].frame)} else multiset{}) + Given(es[1..])
  }

  /** The frames reported over, or thrown away. */
  function Left(acts: seq<Action>): multiset<Core>
    decreases |acts|
  {
    if acts == [] then multiset{}
    else (if acts[0].Complete? || acts[0].Drop? then multiset{CoreOf(acts[0].frame)} else multiset{}) + Left(acts[1..])
  }

  lemma {:induction false} LeftAppend(a: seq<Action>, b: seq<Action>)
    ensures Left(a + b) == Left(a) + Left(b)
    decreases |a|
  {
    if a == [] {
      assert a + b == b;
    } else {
      assert (a + b)[1..] == a[1..] + b;
      LeftAppend(a[1..], b);
    }
  }

  lemma LeftOf(a: Action)
    ensures Left([]) == multiset{}
    ensures Left([a]) == if a.Complete? || a.Drop? then multiset{CoreOf(a.frame)} else multiset{}
  {
    assert [a][1..] == [];
  }

  lemma ProceededConserves(rx: Receiver, f: Frame, rest: seq<Frame>)
    ensures Held(Proceeded(rx, f, rest).0) + Left(Proceeded(rx, f, rest).1) == multiset{CoreOf(f)} + Cores(rest)
  {
    hide Frame.Wire, Frame.Sent, Left;
    LeftOf(Complete(f));
    if rest != [] {
      var next := rest[0].(tries := 0);
      SentKeeps(next);
      LeftOf(Transmit(next.Wire()));
      LeftAppend([Transmit(next.Wire())], [Complete(f)]);
      assert [Transmit(next.Wire())] + [Complete(f)] == [Transmit(next.Wire()), Complete(f)];
    }
  }

  lemma FinishedConserves(rx: Receiver, f: Frame, owed: bool, waiting: seq<Frame>)
    ensures var (h, acts) := Finished(rx, f, owed, waiting);
            Held(h) + Left(acts) == multiset{CoreOf(f)} + Cores(waiting)
  {
    hide Proceeded, Held, Left;
    if owed || waiting == [] {
      ProceededConserves(rx, f, waiting);
    } else {
      var (h, acts) := Proceeded(rx, f, waiting[1..]);
      ProceededConserves(rx, f, waiting[1..]);
      LeftOf(Drop(waiting[0]));
      LeftAppend([Drop(waiting[0])], acts);
      var first := multiset{CoreOf(waiting[0])};
      Regroup(multiset{CoreOf(f)}, first, Cores(waiting[1..]), multiset{CoreOf(f)}, first, Held(h), Left(acts));
    }
  }

  lemma JudgeConserves(h: Host, v: FrameError)
    ensures Held(Judge(h, v).0) + Left(Judge(h, v).1) == Held(h)
  {
    hide Frame.Wire, Frame.Sent, Left;
    LeftOf(Acknowledge);
    if h.flight.Some? {
      var g := h.flight.value.Judged(v);
      FinishedConserves(h.rx, g, h.owed, h.waiting);
      SentKeeps(g);
      LeftOf(Transmit(g.Wire()));
    }
  }

  lemma ReportConserves(h: Host, out: Output)
    ensures Held(Report(h, out).0) + Left(Report(h, out).1) == Held(h)
  {
    hide Judge, Left;
    LeftOf(Acknowledge);
    match out
    case Nothing =>
    case Delivered(p, error) =>
      LeftOf(Deliver(p, error));
      LeftAppend(if error == NoError then [Acknowledge] else [], [Deliver(p, error)]);
    case Verdict(v) => JudgeConserves(h, v);
  }

  lemma StepConserves(h: Host, e: Event)
    requires HostOk(h)
    ensures Held(Step(h, e).0) + Left(Step(h, e).1)
         == Held(h) + if e.Post? then multiset{CoreOf(e.frame)} else multiset{}
  {
    hide Report, Judge, Posted, RxStep, RxExpire, RxConsistent, Held, Left;
    match e
    case Arrived(b) =>
      var (rx, out) := RxStep(h.rx, b);
      ReportConserves(h.(rx := rx), out);
      ReceiverHoldsNothing(h, rx);
    case RecvTimer =>
      var (rx, out) := RxExpire(h.rx);
      ReportConserves(h.(rx := rx), out);
      ReceiverHoldsNothing(h, rx);
    case SendTimer => JudgeConserves(h, SendTimedOut);
    case Post(f) => PostConserves(h, f);
  }

  lemma ReceiverHoldsNothing(h: Host, rx: Receiver)
    ensures Held(h.(rx := rx)) == Held(h)
  {
  }

  lemma PostConserves(h: Host, f: Frame)
    requires h.flight.None? ==> h.waiting == []
    ensures Held(Posted(h, f).0) + Left(Posted(h, f).1) == Held(h) + multiset{CoreOf(f)}
  {
    hide Frame.Wire, Frame.Sent, Left;
    LeftOf(Transmit(f.Wire()));
    SentKeeps(f);
    CoresAppend(h.waiting, [f]);
    assert [f][1..] == [];
  }

  /** Main result: over every run, each frame handed over is in exactly one place: in the sender's
      hands, reported over, or thrown away. */
  lemma {:induction false} FramesConserved(h: Host, es: seq<Event>)
    requires HostOk(h)
    ensures Held(h) + Given(es) == Held(Run(h, es).0) + Left(Run(h, es).1)
    decreases |es|
  {
    hide HostOk, Step, Held;
    if es != [] {
      RunNext(h, es);
      StepConserves(h, es[0]);
      FramesConserved(Step(h, es[0]).0, es[1..]);
      LeftAppend(Step(h, es[0]).1, Run(Step(h, es[0]).0, es[1..]).1);
      var (h1, acts) := Step(h, es[0]);
      Regroup(Held(h), if es[0].Post? then multiset{CoreOf(es[0].frame)} else multiset{}, Given(es[1..]),
              Held(h1), Left(acts), Held(Run(h, es).0), Left(Run(h1, es[1..]).1));
    }
  }

  lemma Regroup<T>(a: multiset<T>, b: multiset<T>, c: multiset<T>, d: multiset<T>, e: multiset<T>,
                   f: multiset<T>, g: multiset<T>)
    requires d + e == a + b && d + c == f + g
    ensures a + (b + c) == f + (e + g)
  {
    assert a + (b + c) == (a + b) + c == (d + c) + e;
  }

  // ---------------------------------------------------------------- what is thrown away

  /** Nothing waits, or one frame waits and the one in flight still has its own entry. */
  predicate Safe(h: Host) {
    h.waiting == [] || (h.owed && |h.waiting| == 1)
  }

  predicate NothingLost(acts: seq<Action>) {
    Only(acts, Losing) == []
  }

  lemma LosingOf(a: Action)
    ensures NothingLost([]) && (NothingLost([a]) <==> !a.Drop?)
  {
    OnlyOf(a, a, Losing);
  }

  /** The end of a frame loses one exactly when its own entry is gone and others wait. */
  lemma FinishedLoses(rx: Receiver, f: Frame, owed: bool, waiting: seq<Frame>)
    ensures NothingLost(Finished(rx, f, owed, waiting).1) <==> owed || waiting == []
  {
    hide Frame.Wire, Frame.Sent, Only;
    if owed || waiting == [] {
      ProceededLosesNothing(rx, f, waiting);
    } else {
      OnlyAppend([Drop(waiting[0])], Proceeded(rx, f, waiting[1..]).1, Losing);
      OnlyOf(Drop(waiting[0]), Acknowledge, Losing);
    }
  }

  lemma ProceededLosesNothing(rx: Receiver, f: Frame, rest: seq<Frame>)
    ensures NothingLost(Proceeded(rx, f, rest).1)
  {
    hide Frame.Wire, Frame.Sent, Only;
    OnlyOf(Complete(f), Acknowledge, Losing);
    OnlyOf(Transmit((if rest == [] then f else rest[0].(tries := 0)).Wire()), Complete(f), Losing);
  }

  lemma SafeStep(h: Host, e: Event)
    requires HostOk(h) && Safe(h) && (e.Post? ==> h.flight.None? || (h.owed && h.waiting == []))
    ensures Safe(Step(h, e).0) && NothingLost(Step(h, e).1)
  {
    hide Frame.Wire, Frame.Sent, VerdictOf, RxConsistent, Concluded, RxStep, RxExpire, Report, NothingLost;
    if e.Post? {
      LosingOf(Transmit(e.frame.Wire()));
    } else {
      StepByVerdict(h, e);
      QuietMeans(Step(h, e).1);
      var (rx, v) := VerdictOf(h.rx, e);
      if v.Some? {
        LosingOf(Acknowledge);
        if h.flight.Some? {
          SafeVerdict(rx, h.flight.value.Judged(v.value), h.owed, h.waiting);
        }
      }
    }
  }

  lemma QuietMeans(acts: seq<Action>)
    ensures NothingLost(acts) <==> Only(acts, Losing) == []
  {
  }

  lemma SafeVerdict(rx: Receiver, f: Frame, owed: bool, waiting: seq<Frame>)
    requires waiting == [] || (owed && |waiting| == 1)
    ensures Safe(Concluded(rx, f, owed, waiting).0) && NothingLost(Concluded(rx, f, owed, waiting).1)
  {
    hide Frame.Wire, Frame.Sent, NothingLost;
    FinishedLoses(rx, f, owed, waiting);
    LosingOf(Transmit(f.Wire()));
  }

  /** New frames come only when the sender is idle, or has one frame in flight, its entry still in
      the queue, and nothing waiting. */
  ghost predicate Careful(h: Host, es: seq<Event>)
    requires HostOk(h)
    decreases |es|
  {
    es == [] ||
    ((es[0].Post? ==> h.flight.None? || (h.owed && h.waiting == [])) &&
     (StepKeeps(h, es[0]); Careful(Step(h, es[0]).0, es[1..])))
  }

  /** Main result, one half: careful use never loses a frame. */
  lemma {:induction false} CarefulLosesNothing(h: Host, es: seq<Event>)
    requires HostOk(h) && Safe(h) && Careful(h, es)
    ensures NothingLost(Run(h, es).1) && Safe(Run(h, es).0)
    decreases |es|
  {
    hide HostOk, Step, Safe, Only;
    LosingOf(Acknowledge);
    if es != [] {
      RunNext(h, es);
      SafeStep(h, es[0]);
      CarefulLosesNothing(Step(h, es[0]).0, es[1..]);
      OnlyAppend(Step(h, es[0]).1, Run(Step(h, es[0]).0, es[1..]).1, Losing);
    }
  }

  lemma {:induction false} QuietIsCareful(h: Host, es: seq<Event>)
    requires HostOk(h) && Quiet(es)
    ensures Careful(h, es)
    decreases |es|
  {
    hide HostOk, Step;
    if es != [] {
      StepKeeps(h, es[0]);
      QuietIsCareful(Step(h, es[0]).0, es[1..]);
    }
  }

  /** Enough timeouts end the frame in flight. */
  lemma {:induction false} TimeoutsEnd(h: Host) returns (es: seq<Event>, f: Frame)
    requires HostOk(h) && h.flight.Some?
    ensures Quiet(es)
    ensures Run(h, es).0 == Finished(h.rx, f, h.owed, h.waiting).0
    ensures NothingLost(Run(h, es).1) ==> NothingLost(Finished(h.rx, f, h.owed, h.waiting).1)
    decreases Budget(h.flight.value)
  {
    hide RxConsistent, Frame.Wire, Frame.Sent, NothingLost, Finished;
    var g := h.flight.value.Judged(SendTimedOut);
    var (h1, acts) := Step(h, SendTimer);
    if g.tries >= MAX_SEND_TRY_COUNT {
      es, f := [SendTimer], g;
      RunNext(h, es);
      assert acts + [] == acts && Run(h1, []) == (h1, []);
    } else {
      SentKeeps(g);
      var rest;
      rest, f := TimeoutsEnd(h1);
      es := [SendTimer] + rest;
      assert es[1..] == rest;
      RunNext(h, es);
      LostLater(acts, Run(h1, rest).1);
    }
  }

  lemma LostLater(a: seq<Action>, b: seq<Action>)
    ensures NothingLost(a + b) <==> NothingLost(a) && NothingLost(b)
  {
    OnlyAppend(a, b, Losing);
  }

  lemma UnsafeCanLose(h: Host) returns (es: seq<Event>)
    requires HostOk(h) && !Safe(h)
    ensures Quiet(es) && !NothingLost(Run(h, es).1)
  {
    hide RxConsistent, Frame.Wire, Frame.Sent, NothingLost;
    var f;
    es, f := TimeoutsEnd(h);
    FinishedLoses(h.rx, f, h.owed, h.waiting);
    if h.owed {
      var h1 := Run(h, es).0;
      var rest, f1 := TimeoutsEnd(h1);
      FinishedLoses(h1.rx, f1, h1.owed, h1.waiting);
      RunAppend(h, es, rest);
      LostLater(Run(h, es).1, Run(h1, rest).1);
      es := es + rest;
    }
  }

  /** Main result: whatever arrives and however often timers fire, no queued frame is thrown away,
      if and only if at most one frame waits, and that one behind a frame whose own entry is still
      in the queue. */
  lemma LossExactly(h: Host)
    requires HostOk(h)
    ensures (forall es :: Quiet(es) ==> NothingLost(Run(h, es).1)) <==> Safe(h)
  {
    hide NothingLost, Run;
    if Safe(h) {
      forall es | Quiet(es)
        ensures NothingLost(Run(h, es).1)
      {
        QuietIsCareful(h, es);
        CarefulLosesNothing(h, es);
      }
    } else {
      var es := UnsafeCanLose(h);
    }
  }

  lemma AckEnds(h: Host)
    requires HostOk(h) && h.flight.Some? && h.rx.state == Hunt
    ensures Step(h, Arrived(ACK)) == Finished(h.rx, h.flight.value.Judged(SendAcked), h.owed, h.waiting)
  {
    hide Finished, RxConsistent;
    assert h.(rx := h.rx) == h;
  }

  /** Three frames in a row and an ACK for each of the first two, step by step. */
  lemma ThreeFrames(h: Host, a: Frame, b: Frame, c: Frame)
    requires HostOk(h) && h.flight.None? && h.rx.state == Hunt
    ensures var b0 := b.(tries := 0);
            Run(h, [Post(a), Post(b), Post(c), Arrived(ACK), Arrived(ACK)]) ==
            (Host(h.rx, None, false, []),
             [Transmit(a.Wire()), Transmit(b0.Wire())] +
             ([Complete(a.Sent().Judged(SendAcked)), Drop(c)] + [Complete(b0.Sent().Judged(SendAcked))]))
  {
    hide Frame.Wire, Frame.Sent, RxConsistent, RxStep, Run, Report;
    var b0 := b.(tries := 0);
    var h3 := Host(h.rx, Some(a.Sent()), true, [b, c]);
    assert [b] + [c] == [b, c] && [] + [b] == [b] && [b, c][1..] == [c] && [c][1..] == [];
    AckEnds(h3);
    var h4 := Host(h.rx, Some(b0.Sent()), false, [c]);
    var done1, done2 := Complete(a.Sent().Judged(SendAcked)), Complete(b0.Sent().Judged(SendAcked));
    var none: seq<Action> := [];
    assert none + [Transmit(b0.Wire()), done1] == [Transmit(b0.Wire()), done1];
    AckEnds(h4);
    assert [Drop(c)] + [done2] == [Drop(c), done2];
    FiveSteps(h, [Post(a), Post(b), Post(c), Arrived(ACK), Arrived(ACK)]);
    assert [Transmit(a.Wire())] + (none + (none + ([Transmit(b0.Wire()), done1] + [Drop(c), done2])))
        == [Transmit(a.Wire()), Transmit(b0.Wire())] + ([done1, Drop(c)] + [done2]);
  }

  /** The third of three frames in a row is never sent though the first two are acknowledged, and
      the sender is idle. */
  lemma ThirdFrameLost(h: Host, a: Frame, b: Frame, c: Frame)
    requires HostOk(h) && h.flight.None? && h.rx.state == Hunt
    ensures var (h1, acts) := Run(h, [Post(a), Post(b), Post(c), Arrived(ACK), Arrived(ACK)]);
            h1.flight == None && h1.waiting == [] && Only(acts, Losing) == [Drop(c)] &&
            Only(acts, Sending) == [Transmit(a.Wire()), Transmit(b.(tries := 0).Wire())]
  {
    hide Frame.Wire, Frame.Sent, RxConsistent, Only, Run;
    ThreeFrames(h, a, b, c);
    var b0 := b.(tries := 0);
    var sent := [Transmit(a.Wire()), Transmit(b0.Wire())];
    var done1, done2 := Complete(a.Sent().Judged(SendAcked)), Complete(b0.Sent().Judged(SendAcked));
    forall s
      ensures Only(sent + ([done1, Drop(c)] + [done2]), s)
           == Only(sent, s) + (Only([done1, Drop(c)], s) + Only([done2], s))
    {
      OnlyAppend(sent, [done1, Drop(c)] + [done2], s);
      OnlyAppend([done1, Drop(c)], [done2], s);
    }
    forall s | s == Sending || s == Losing
      ensures Only(sent, s) == if s == Sending then sent else []
      ensures Only([done1, Drop(c)], s) == if s == Losing then [Drop(c)] else []
      ensures Only([done2], s) == []
    {
      OnlyOf(sent[0], sent[1], s);
      OnlyOf(done1, Drop(c), s);
      OnlyOf(done2, done2, s);
    }
  }

  lemma FiveSteps(h: Host, es: seq<Event>)
    requires HostOk(h) && |es| == 5
    ensures HostOk(Step(h, es[0]).0)
    ensures var s1 := Step(h, es[0]); HostOk(Step(s1.0, es[1]).0)
    ensures var s1 := Step(h, es[0]); var s2 := Step(s1.0, es[1]); HostOk(Step(s2.0, es[2]).0)
    ensures var s1 := Step(h, es[0]); var s2 := Step(s1.0, es[1]); var s3 := Step(s2.0, es[2]);
            HostOk(Step(s3.0, es[3]).0)
    ensures var s1 := Step(h, es[0]); var s2 := Step(s1.0, es[1]); var s3 := Step(s2.0, es[2]);
            var s4 := Step(s3.0, es[3]); var s5 := Step(s4.0, es[4]);
            Run(h, es) == (s5.0, s1.1 + (s2.1 + (s3.1 + (s4.1 + s5.1))))
  {
    hide Step, HostOk;
    RunNext(h, es);
    var (h1, a1) := Step(h, es[0]);
    RunNext(h1, es[1..]);
    var (h2, a2) := Step(h1, es[1]);
    RunNext(h2, es[2..]);
    assert es[1..][1..] == es[2..] && es[2..][1..] == es[3..] && es[3..][1..] == es[4..] && es[4..][1..] == [];
    var (h3, a3) := Step(h2, es[2]);
    RunNext(h3, es[3..]);
    var (h4, a4) := Step(h3, es[3]);
    RunNext(h4, es[4..]);
    var a5 := Step(h4, es[4]).1;
    assert a5 + [] == a5;
  }

  // ---------------------------------------------------------------- first come, first served

  function CoreSeq(fs: seq<Frame>): (r: seq<Core>)
    ensures |r| == |fs|
  {
    seq(|fs|, i requires 0 <= i < |fs| => CoreOf(fs[i]))
  }

  /** The frames in the sender's hands, in the order in which they came. */
  function Line(h: Host): seq<Core> {
    (if h.flight.Some? then [CoreOf(h.flight.value)] else []) + CoreSeq(h.waiting)
  }

  function PostedIn(es: seq<Event>): seq<Core>
    decreases |es|
  {
    if es == [] then [] else (if es[0].Post? then [CoreOf(es[0].frame)] else []) + PostedIn(es[1..])
  }

  function Ended(acts: seq<Action>, complete: bool): seq<Core>
    decreases |acts|
  {
    if acts == [] then []
    else
      (if (if complete then acts[0].Complete? else acts[0].Drop?) then [CoreOf(acts[0].frame)] else []) +
      Ended(acts[1..], complete)
  }

  lemma {:induction false} EndedAppend(a: seq<Action>, b: seq<Action>, complete: bool)
    ensures Ended(a + b, complete) == Ended(a, complete) + Ended(b, complete)
    decreases |a|
  {
    if a == [] {
      assert a + b == b;
    } else {
      assert (a + b)[1..] == a[1..] + b;
      EndedAppend(a[1..], b, complete);
    }
  }

  lemma EndedOf(a: Action, complete: bool)
    ensures Ended([], complete) == []
    ensures Ended([a], complete) == if (if complete then a.Complete? else a.Drop?) then [CoreOf(a.frame)] else []
  {
    assert [a][1..] == [];
  }

  /** `p` is made of `a` and `b`, each in its order. */
  ghost predicate Merged<T(!new)>(a: seq<T>, b: seq<T>, p: seq<T>)
    decreases |p|
  {
    if p == [] then a == [] && b == []
    else
      (a != [] && a[0] == p[0] && Merged(a[1..], b, p[1..])) || (b != [] && b[0] == p[0] && Merged(a, b[1..], p[1..]))
  }

  lemma {:induction false} MergedAppend<T(!new)>(a: seq<T>, b: seq<T>, p: seq<T>, a1: seq<T>, b1: seq<T>, p1: seq<T>)
    requires Merged(a, b, p) && Merged(a1, b1, p1)
    ensures Merged(a + a1, b + b1, p + p1)
    decreases |p|
  {
    if p == [] {
      assert a + a1 == a1 && b + b1 == b1 && p + p1 == p1;
    } else {
      assert (p + p1)[1..] == p[1..] + p1;
      if a != [] && a[0] == p[0] && Merged(a[1..], b, p[1..]) {
        assert (a + a1)[1..] == a[1..] + a1;
        MergedAppend(a[1..], b, p[1..], a1, b1, p1);
      } else {
        assert (b + b1)[1..] == b[1..] + b1;
        MergedAppend(a, b[1..], p[1..], a1, b1, p1);
      }
    }
  }

  lemma MergedOne<T(!new)>(x: T, y: T)
    ensures Merged<T>([], [], []) && Merged([x], [], [x]) && Merged([x], [y], [x, y])
  {
    assert [x][1..] == [] && [y][1..] == [] && [x, y][1..] == [y];
  }

  /** What has left the line in one step, in the order in which it had come. */
  lemma StepInOrder(h: Host, e: Event) returns (gone: seq<Core>)
    requires HostOk(h)
    ensures var (h1, acts) := Step(h, e);
            && Line(h) + (if e.Post? then [CoreOf(e.frame)] else []) == gone + Line(h1)
            && Merged(Ended(acts, true), Ended(acts, false), gone)
  {
    hide RxStep, RxExpire, RxConsistent, Frame.Sent, Frame.Wire, Judge, Ended, Merged;
    gone := [];
    EndedOf(Acknowledge, true);
    EndedOf(Acknowledge, false);
    MergedOne(Core(0, 0, []), Core(0, 0, []));
    if e.Post? {
      PostInOrder(h, e.frame);
    } else {
      var (rx, out) :=
        match e
        case Arrived(b) => RxStep(h.rx, b)
        case RecvTimer => RxExpire(h.rx)
        case _ => (h.rx, Verdict(SendTimedOut));
      assert Step(h, e) == Report(h.(rx := rx), out);
      if out.Verdict? {
        gone := JudgeInOrder(h.(rx := rx), out.error);
      } else {
        ToldEndsNothing(out);
        assert Line(h) + [] == [] + Line(h.(rx := rx));
      }
    }
  }

  lemma ToldEndsNothing(out: Output)
    ensures Ended(Told(out), true) == [] && Ended(Told(out), false) == []
  {
    if out.Delivered? {
      var d := Deliver(out.frame, out.error);
      forall complete
        ensures Ended(Told(out), complete) == []
      {
        EndedAppend(if out.error == NoError then [Acknowledge] else [], [d], complete);
        EndedOf(Acknowledge, complete);
        EndedOf(d, complete);
      }
    }
  }

  lemma PostInOrder(h: Host, f: Frame)
    requires HostOk(h)
    ensures Line(h) + [CoreOf(f)] == [] + Line(Posted(h, f).0)
    ensures Ended(Posted(h, f).1, true) == [] && Ended(Posted(h, f).1, false) == []
  {
    hide Frame.Wire, Frame.Sent, RxConsistent;
    SentKeeps(f);
    EndedOf(Transmit(f.Wire()), true);
    EndedOf(Transmit(f.Wire()), false);
    assert CoreSeq(h.waiting + [f]) == CoreSeq(h.waiting) + [CoreOf(f)];
  }

  lemma JudgeInOrder(h: Host, v: FrameError) returns (gone: seq<Core>)
    ensures var (h1, acts) := Judge(h, v);
            Line(h) + [] == gone + Line(h1) && Merged(Ended(acts, true), Ended(acts, false), gone)
  {
    hide Frame.Wire, Frame.Sent, Finished, Ended, Merged;
    gone := [];
    MergedOne(Core(0, 0, []), Core(0, 0, []));
    EndedOf(Acknowledge, true);
    EndedOf(Acknowledge, false);
    if h.flight.Some? {
      var f := h.flight.value.Judged(v);
      if f.error == SendAcked || f.tries >= MAX_SEND_TRY_COUNT {
        gone := FinishedInOrder(h.rx, f, h.owed, h.waiting);
        assert Line(h) == [CoreOf(f)] + CoreSeq(h.waiting);
      } else {
        SentKeeps(f);
        EndedOf(Transmit(f.Wire()), true);
        EndedOf(Transmit(f.Wire()), false);
      }
    }
  }

  lemma FinishedInOrder(rx: Receiver, f: Frame, owed: bool, waiting: seq<Frame>) returns (gone: seq<Core>)
    ensures var (h1, acts) := Finished(rx, f, owed, waiting);
            && [CoreOf(f)] + CoreSeq(waiting) == gone + Line(h1)
            && Merged(Ended(acts, true), Ended(acts, false), gone)
  {
    hide Frame.Wire, Frame.Sent, Proceeded, Ended, Merged;
    var first := CoreOf(f);
    if owed || waiting == [] {
      ProceededInOrder(rx, f, waiting);
      gone := [first];
      MergedOne(first, first);
    } else {
      var (h, acts) := Proceeded(rx, f, waiting[1..]);
      ProceededInOrder(rx, f, waiting[1..]);
      EndedAppend([Drop(waiting[0])], acts, true);
      EndedAppend([Drop(waiting[0])], acts, false);
      EndedOf(Drop(waiting[0]), true);
      EndedOf(Drop(waiting[0]), false);
      gone := [first, CoreOf(waiting[0])];
      MergedOne(first, CoreOf(waiting[0]));
      assert CoreSeq(waiting) == [CoreOf(waiting[0])] + CoreSeq(waiting[1..]);
      assert [] + [first] == [first] && [CoreOf(waiting[0])] + [] == [CoreOf(waiting[0])];
    }
  }

  lemma ProceededInOrder(rx: Receiver, f: Frame, rest: seq<Frame>)
    ensures var (h1, acts) := Proceeded(rx, f, rest);
            Line(h1) == CoreSeq(rest) && Ended(acts, true) == [CoreOf(f)] && Ended(acts, false) == []
  {
    hide Frame.Wire, Frame.Sent, Ended;
    forall complete
      ensures Ended([Complete(f)], complete) == if complete then [CoreOf(f)] else []
    {
      EndedOf(Complete(f), complete);
    }
    if rest != [] {
      var next := rest[0].(tries := 0);
      SentKeeps(next);
      var t, c := Transmit(next.Wire()), Complete(f);
      forall complete
        ensures Ended([t, c], complete) == if complete then [CoreOf(f)] else []
      {
        assert [t] + [c] == [t, c];
        EndedAppend([t], [c], complete);
        EndedOf(t, complete);
        EndedOf(c, complete);
      }
      assert CoreSeq(rest) == [CoreOf(rest[0])] + CoreSeq(rest[1..]);
    }
  }

  lemma Glue<T>(l: seq<T>, p: seq<T>, q: seq<T>, a: seq<T>, l1: seq<T>, b: seq<T>, l2: seq<T>)
    requires l + p == a + l1 && l1 + q == b + l2
    ensures l + (p + q) == (a + b) + l2
  {
    assert l + (p + q) == (l + p) + q;
    assert (a + l1) + q == a + (l1 + q);
  }

  /** Main result: over every run frames leave in the order in which they were handed over.  What was in hand
      and what was posted is, in order, what has gone and what is still there; and what has gone is made
      of what was reported and what was thrown away, each in its order. */
  lemma {:induction false} FramesInOrder(h: Host, es: seq<Event>) returns (gone: seq<Core>)
    requires HostOk(h)
    ensures var (h1, acts) := Run(h, es);
            Line(h) + PostedIn(es) == gone + Line(h1) && Merged(Ended(acts, true), Ended(acts, false), gone)
    decreases |es|
  {
    hide Step, HostOk, Line, Merged, Ended;
    if es == [] {
      gone := [];
      EndedOf(Acknowledge, true);
      EndedOf(Acknowledge, false);
      MergedOne(Core(0, 0, []), Core(0, 0, []));
      assert Line(h) + [] == [] + Line(h);
    } else {
      RunNext(h, es);
      var first := StepInOrder(h, es[0]);
      var (h1, acts) := Step(h, es[0]);
      var rest := FramesInOrder(h1, es[1..]);
      var more := Run(h1, es[1..]).1;
      EndedAppend(acts, more, true);
      EndedAppend(acts, more, false);
      MergedAppend(Ended(acts, true), Ended(acts, false), first, Ended(more, true), Ended(more, false), rest);
      gone := first + rest;
      var p := if es[0].Post? then [CoreOf(es[0].frame)] else [];
      Glue(Line(h), p, PostedIn(es[1..]), first, Line(h1), rest, Line(Run(h, es).0));
    }
  }

  /** Every transmission is of the frame then in flight; one that comes from the queue has not been tried. */
  lemma OnlyFlightIsSent(h: Host, e: Event)
    requires HostOk(h)
    ensures var (h1, acts) := Step(h, e);
            && (forall a :: a in acts && a.Transmit? ==> h1.flight.Some? && a.bytes == h1.flight.value.Wire())
            && ((exists a :: a in acts && a.Complete?) && h1.flight.Some? ==> h1.flight.value.tries == 0)
  {
    hide RxStep, RxExpire, RxConsistent, Frame.Sent, Frame.Wire;
    if e.Post? {
      ResendSame(e.frame, e.frame.error, e.frame.tries);
      SentIsItself(e.frame);
    }
    if h.flight.Some? {
      forall v: FrameError
        ensures var f := h.flight.value.Judged(v); f.Sent().Wire() == f.Wire()
      {
        SentIsItself(h.flight.value.Judged(v));
      }
    }
    forall i | 0 <= i < |h.waiting|
      ensures var f := h.waiting[i].(tries := 0); f.Sent().Wire() == f.Wire() && f.Sent().tries == 0
    {
      SentIsItself(h.waiting[i].(tries := 0));
    }
  }

  lemma SentIsItself(f: Frame)
    ensures f.Sent().Wire() == f.Wire() && f.Sent().tries == f.tries
  {
    SentKeeps(f);
    ResendSame(f, f.error, f.tries);
    assert f.Sent().(error := f.error, tries := f.tries) == f.Sent();
  }
}
