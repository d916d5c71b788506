/** The sender of product/zwave/src/session.c on top of product/zwave/src/frame.c: what the host
    keeps, one step of it, and the objects that take these steps. */
module Sessions {
  import opened Options
  import opened Frames

  const MAX_SEND_TRY_COUNT := 4

  /** Everything that leaves the host: bytes on the wire, callbacks to the layer above, and
      queued frames that are taken off the queue and forgotten. */
  datatype Action =
    | Transmit(bytes: seq<Byte>)
    | Acknowledge
    | Deliver(received: Partial, error: FrameError)
    | Complete(frame: Frame)
    | Drop(frame: Frame)

  /** `flight` is the frame waiting for its verdict and `waiting` the frames queued behind it.
      While `owed`, the queue still begins with the frame in flight itself. */
  datatype Host = Host(rx: Receiver, flight: Option<Frame>, owed: bool, waiting: seq<Frame>)

  datatype Event = Arrived(b: Byte) | RecvTimer | SendTimer | Post(frame: Frame)

  ghost predicate HostOk(h: Host) {
    RxConsistent(h.rx) && (h.flight.None? ==> !h.owed && h.waiting == [])
  }

  /** session_send. */
  function Posted(h: Host, f: Frame): (Host, seq<Action>) {
    if h.flight.None? then (Host(h.rx, Some(f.Sent()), true, []), [Transmit(f.Wire())])
    else (h.(waiting := h.waiting + [f]), [])
  }

  /** After the first of the two pops: the second one, the next transmission and the callback. */
  function Proceeded(rx: Receiver, f: Frame, rest: seq<Frame>): (Host, seq<Action>) {
    if rest == [] then (Host(rx, None, false, []), [Complete(f)])
    else
      var next := rest[0].(tries := 0);
      (Host(rx, Some(next.Sent()), false, rest[1..]), [Transmit(next.Wire()), Complete(f)])
  }

  /** The end of a frame. */
  function Finished(rx: Receiver, f: Frame, owed: bool, waiting: seq<Frame>): (Host, seq<Action>) {
    if owed || waiting == [] then Proceeded(rx, f, waiting)
    else
      var (h, acts) := Proceeded(rx, f, waiting[1..]);
      (h, [Drop(waiting[0])] + acts)
  }

  /** session_send_over_callback for a frame that was in flight and has been judged. */
  function Concluded(rx: Receiver, f: Frame, owed: bool, waiting: seq<Frame>): (Host, seq<Action>) {
    if f.error == SendAcked || f.tries >= MAX_SEND_TRY_COUNT then Finished(rx, f, owed, waiting)
    else (Host(rx, Some(f.Sent()), owed, waiting), [Transmit(f.Wire())])
  }

  function Judge(h: Host, e: FrameError): (Host, seq<Action>) {
    if h.flight.None? then (h, []) else Concluded(h.rx, h.flight.value.Judged(e), h.owed, h.waiting)
  }

  /** What a received frame gives rise to. */
  function Told(out: Output): seq<Action> {
    if !out.Delivered? then []
    else (if out.error == NoError then [Acknowledge] else []) + [Deliver(out.frame, out.error)]
  }

  function Report(h: Host, out: Output): (Host, seq<Action>) {
    if out.Verdict? then Judge(h, out.error) else (h, Told(out))
  }

  function Step(h: Host, e: Event): (Host, seq<Action>)
    requires HostOk(h)
  {
    match e
    case Arrived(b) => var (rx, out) := RxStep(h.rx, b); Report(h.(rx := rx), out)
    case RecvTimer => var (rx, out) := RxExpire(h.rx); Report(h.(rx := rx), out)
    case SendTimer => Judge(h, SendTimedOut)
    case Post(f) => Posted(h, f)
  }

  lemma StepKeeps(h: Host, e: Event)
    requires HostOk(h)
    ensures HostOk(Step(h, e).0)
  {
    hide RxStep, RxExpire, RxConsistent, Frame.Sent, Frame.Wire;
    match e
    case Arrived(b) => RxKeeps(h.rx, Arrive(b));
    case RecvTimer => RxKeeps(h.rx, Expire);
    case _ =>
  }

  function Run(h: Host, es: seq<Event>): (p: (Host, seq<Action>))
    requires HostOk(h)
    ensures HostOk(p.0)
    decreases |es|
  {
    if es == [] then (h, [])
    else
      StepKeeps(h, es[0]);
      var (h1, acts) := Step(h, es[0]);
      var (h2, more) := Run(h1, es[1..]);
      (h2, acts + more)
  }

  /** The bytes among the actions. */
  function Bytes(acts: seq<Action>): seq<Byte>
    decreases |acts|
  {
    if acts == [] then []
    else
      (match acts[0]
       case Transmit(bytes) => bytes
       case Acknowledge => [ACK]
       case _ => []) + Bytes(acts[1..])
  }

  lemma {:induction false} BytesAppend(a: seq<Action>, b: seq<Action>)
    ensures Bytes(a + b) == Bytes(a) + Bytes(b)
    decreases |a|
  {
    if a == [] {
      assert a + b == b;
    } else {
      assert (a + b)[1..] == a[1..] + b;
      BytesAppend(a[1..], b);
    }
  }

  lemma BytesOfNone()
    ensures Bytes([]) == []
  {
  }

  lemma BytesOfOne(a: Action)
    ensures Bytes([a]) == match a case Transmit(bytes) => bytes case Acknowledge => [ACK] case _ => []
  {
    assert [a][1..] == [];
  }

  lemma BytesOfTold(out: Output)
    ensures Bytes(Told(out)) == if out.Delivered? && out.error == NoError then [ACK] else []
  {
    BytesOfNone();
    if out.Delivered? {
      BytesOfOne(Acknowledge);
      BytesOfOne(Deliver(out.frame, out.error));
      BytesAppend(if out.error == NoError then [Acknowledge] else [], [Deliver(out.frame, out.error)]);
    }
  }

  /** The receiver only ever gives verdicts of the three kinds. */
  lemma VerdictKind(r: Receiver, b: Byte)
    requires RxConsistent(r) && RxStep(r, b).1.Verdict?
    ensures RxStep(r, b).1.error in {SendAcked, SendNaked, SendCancelled}
    ensures RxStep(r, b).0 == r && r.state.Hunt?
  {
    hide Sum;
  }

  // ---------------------------------------------------------------- the objects

  /** The global state of frame.c.  Timers are modelled by whether they run. */
  class FrameLayer {
    const platform: Platform
    var stateRecv: RxState
    var frameRecv: Option<Partial>
    var timerRecv: bool
    var frameSend: DataFrame?
    var busy: bool
    var timerSend: bool
    var written: seq<Byte>

    function Rx(): Receiver
      reads this
    {
      Receiver(platform, stateRecv, frameRecv, timerRecv)
    }

    ghost predicate Valid()
      reads this
    {
      RxConsistent(Rx()) && (busy <==> frameSend != null) && (timerSend <==> busy)
    }

    /** frame_init. */
    constructor (platform: Platform)
      ensures Valid() && !busy && written == []
    {
      this.platform := platform;
      stateRecv, frameRecv, timerRecv := Hunt, None, false;
      frameSend, busy, timerSend := null, false, false;
      written := [];
    }

    /** frame_send. */
    method Send(df: DataFrame?) returns (code: int)
      requires Valid()
      modifies `frameSend, `busy, `timerSend, `written, df
      ensures Valid()
      ensures code == if old(busy) then -2 else if df == null then -3 else 0
      ensures code == 0 ==> frameSend == df && df.Value() == old(df.Value()).Sent()
      ensures code == 0 ==> written == old(written) + old(df.Value()).Wire()
      ensures code != 0 ==> frameSend == old(frameSend) && written == old(written)
      ensures code != 0 && df != null ==> df.Value() == old(df.Value())
    {
      hide RxConsistent;
      if busy {
        return -2;
      }
      if df == null {
        return -3;
      }
      var wire := df.Emit();
      written := written + wire;
      timerSend, frameSend, busy := true, df, true;
      return 0;
    }

    /** A verdict on the frame in flight: it is marked and taken out. */
    method TakeVerdict(e: FrameError) returns (over: DataFrame?)
      requires Valid()
      modifies `frameSend, `busy, `timerSend, frameSend
      ensures Valid() && frameSend == null && over == old(frameSend)
      ensures over != null ==> over.Value() == old(frameSend.Value()).Judged(e)
    {
      hide RxConsistent;
      if frameSend != null {
        frameSend.error := e;
        frameSend.tries := frameSend.tries + 1;
      }
      over := frameSend;
      timerSend, frameSend, busy := false, null, false;
    }

    /** frame_receive_step on the byte read; `over` is what send_over_cb is called with. */
    method ReceiveStep(b: Byte) returns (out: Output, over: DataFrame?)
      requires Valid()
      modifies this, frameSend
      ensures Valid() && (Rx(), out) == RxStep(old(Rx()), b)
      ensures out.Verdict? ==> frameSend == null && over == old(frameSend)
      ensures out.Verdict? && over != null ==> over.Value() == old(frameSend.Value()).Judged(out.error)
      ensures !out.Verdict? ==> over == null && frameSend == old(frameSend)
      ensures !out.Verdict? && frameSend != null ==> frameSend.Value() == old(frameSend.Value())
      ensures written == old(written) + if out.Delivered? && out.error == NoError then [ACK] else []
    {
      hide RxHunt;
      if stateRecv == Hunt {
        out, over := ReceiveHunt(b);
      } else {
        over := null;
        out := ReceiveFrame(b);
      }
    }

    /** Its first case: nothing is being received. */
    method ReceiveHunt(b: Byte) returns (out: Output, over: DataFrame?)
      requires Valid() && stateRecv == Hunt
      modifies `frameSend, `busy, `timerSend, `stateRecv, `timerRecv, frameSend
      ensures Valid() && (Rx(), out) == RxHunt(old(Rx()), b) && !out.Delivered?
      ensures out.Verdict? ==> frameSend == null && over == old(frameSend)
      ensures out.Verdict? && over != null ==> over.Value() == old(frameSend.Value()).Judged(out.error)
      ensures !out.Verdict? ==> over == null && frameSend == old(frameSend)
      ensures !out.Verdict? && frameSend != null ==> frameSend.Value() == old(frameSend.Value())
    {
      out, over := Nothing, null;
      if b == SOF {
        stateRecv, timerRecv := Length, true;
      } else if b == ACK {
        over := TakeVerdict(SendAcked);
        out := Verdict(SendAcked);
      } else if b == NAK {
        over := TakeVerdict(SendNaked);
        out := Verdict(SendNaked);
      } else if b == CAN {
        over := TakeVerdict(SendCancelled);
        out := Verdict(SendCancelled);
      }
    }

    /** Its other cases. */
    method ReceiveFrame(b: Byte) returns (out: Output)
      requires Valid() && stateRecv != Hunt
      modifies `stateRecv, `frameRecv, `timerRecv, `written
      ensures Valid() && (Rx(), out) == RxStep(old(Rx()), b) && !out.Verdict?
      ensures written == old(written) + if out.Delivered? && out.error == NoError then [ACK] else []
    {
      hide Sum, ToNat;
      RxKeeps(Rx(), Arrive(b));
      out := Nothing;
      match stateRecv
      case Length =>
        if ToNat(b) <= MIN_FRAME_SIZE || ToNat(b) >= MAX_FRAME_SIZE {
          stateRecv, timerRecv := Hunt, false;
        } else {
          Allocate(CharValue(platform.charSigned, b));
        }
      case Kind =>
        if frameRecv.None? {
          Break();
        } else if b == REQUEST || b == RESPONSE {
          stateRecv, frameRecv, timerRecv := Command, Some(frameRecv.value.(kind := b)), true;
        } else {
          out := Delivered(frameRecv.value, RecvTimedOut);
          stateRecv, frameRecv, timerRecv := Hunt, None, false;
        }
      case Command =>
        frameRecv := Some(frameRecv.value.(cmd := b));
        stateRecv := if frameRecv.value.Full() then Checksum else Data;
        timerRecv := true;
      case Data =>
        if |frameRecv.value.payload| >= Room(frameRecv.value.len) {
          Break();
        } else {
          frameRecv := Some(frameRecv.value.(payload := frameRecv.value.payload + [b]));
          stateRecv := if frameRecv.value.Full() then Checksum else Data;
          timerRecv := true;
        }
      case Checksum =>
        var p := frameRecv.value;
        if b == Sum(p.len, p.kind, p.cmd, p.payload) {
          written := written + [ACK];
          out := Delivered(p, NoError);
        } else {
          out := Delivered(p, RecvChecksum);
        }
        stateRecv, frameRecv, timerRecv := Hunt, None, false;
      case Broken =>
    }

    /** The allocation of a frame, and the first writes to it. */
    method Allocate(len: int)
      requires frameRecv == None
      modifies `stateRecv, `frameRecv, `timerRecv
      ensures Rx() == if Allocation(platform, len) < 0 then Refused(old(Rx()))
                      else if Allocation(platform, len) < platform.fields then Ruined(old(Rx()))
                      else Receiver(platform, Kind, Some(Partial(len, 0, 0, [])), true)
    {
      stateRecv := Kind;
      if Allocation(platform, len) < 0 {
        timerRecv := false;
      } else if Allocation(platform, len) < platform.fields {
        Break();
      } else {
        frameRecv, timerRecv := Some(Partial(len, 0, 0, [])), true;
      }
    }

    /** A write outside of all memory. */
    method Break()
      modifies `stateRecv, `frameRecv, `timerRecv
      ensures Rx() == Ruined(old(Rx()))
    {
      stateRecv, frameRecv, timerRecv := Broken, None, false;
    }

    /** frame_receive_timer_callback, called while the timer runs. */
    method ReceiveTimer() returns (out: Output)
      requires Valid() && timerRecv
      modifies `stateRecv, `frameRecv, `timerRecv
      ensures Valid() && (Rx(), out) == RxExpire(old(Rx()))
    {
      out := if frameRecv.Some? then Delivered(frameRecv.value, RecvTimedOut) else Nothing;
      stateRecv, frameRecv, timerRecv := Hunt, None, false;
    }
  }

  function Values(q: seq<DataFrame>): (v: seq<Frame>)
    reads q
    ensures |v| == |q|
    ensures forall i :: 0 <= i < |q| ==> v[i] == q[i].Value()
    decreases |q|
  {
    if q == [] then [] else [q[0].Value()] + Values(q[1..])
  }

  /** The global state of session.c; `queue` is qSend. */
  class Session {
    const fs: FrameLayer
    var queue: seq<DataFrame>

    /** A frame is queued at most once, and one in flight stands at the head of the queue or has
        left it. */
    ghost predicate Linked(flight: DataFrame?)
      reads this
    {
      (forall i, j :: 0 <= i < j < |queue| ==> queue[i] != queue[j]) &&
      (forall i :: 1 <= i < |queue| ==> queue[i] != flight)
    }

    ghost predicate Valid()
      reads this, fs
    {
      fs.Valid() && Linked(fs.frameSend) && (fs.frameSend == null ==> queue == [])
    }

    predicate Owed(flight: DataFrame?)
      reads this
    {
      queue != [] && queue[0] == flight
    }

    function Waiting(flight: DataFrame?): seq<Frame>
      reads this, queue
    {
      Values(if Owed(flight) then queue[1..] else queue)
    }

    function State(): Host
      reads this, fs, fs.frameSend, queue
    {
      Host(fs.Rx(), if fs.frameSend == null then None else Some(fs.frameSend.Value()),
           Owed(fs.frameSend), Waiting(fs.frameSend))
    }

    /** session_init. */
    constructor (platform: Platform)
      ensures Valid() && State().flight == None && fs.written == []
    {
      fs := new FrameLayer(platform);
      queue := [];
    }

    /** session_send of a frame that is not in the sender's hands already. */
    method Send(df: DataFrame?) returns (code: int, acts: seq<Action>)
      requires Valid() && df !in queue && (df != null ==> df != fs.frameSend)
      modifies this, fs, df
      ensures Valid() && code == if df == null then -1 else 0
      ensures df != null ==> (State(), acts) == Step(old(State()), Post(old(df.Value())))
      ensures df == null ==> State() == old(State()) && acts == []
      ensures fs.written == old(fs.written) + Bytes(acts)
    {
      hide RxConsistent, RxStep, RxExpire, Frame.Sent, Frame.Wire, Values, Bytes;
      acts := [];
      BytesOfNone();
      if df == null {
        return -1, acts;
      }
      ghost var before := queue;
      queue := queue + [df];
      var wire := df.Value().Wire();
      var sent := fs.Send(df);
      if sent == 0 {
        acts := [Transmit(wire)];
        BytesOfOne(acts[0]);
      } else {
        if before != [] {
          assert queue[1..] == before[1..] + [df];
        }
        assert Waiting(fs.frameSend) == old(Waiting(fs.frameSend)) + [df.Value()];
      }
      return 0, acts;
    }

    /** session_send_over_callback. */
    method SendOver(sf: DataFrame?) returns (acts: seq<Action>)
      requires fs.Valid() && fs.frameSend == null && Linked(sf) && (sf == null ==> queue == [])
      requires sf != null ==> sf.error in {SendAcked, SendNaked, SendCancelled, SendTimedOut}
      modifies this, fs, sf, queue
      ensures Valid() && fs.Rx() == old(fs.Rx())
      ensures sf == null ==> State() == old(State()) && acts == []
      ensures sf != null ==>
                (State(), acts) == Concluded(fs.Rx(), old(sf.Value()), old(Owed(sf)), old(Waiting(sf)))
      ensures fs.written == old(fs.written) + Bytes(acts)
    {
      hide RxConsistent, Frame.Wire, Frame.Sent, Values, Bytes;
      acts := [];
      BytesOfNone();
      if sf != null {
        if sf.error == NoError || sf.error == SendAcked {
          acts := Finish(sf);
        } else if sf.error == SendTimedOut {
          if sf.tries < MAX_SEND_TRY_COUNT {
            acts := Retry(sf);
          } else {
            acts := Finish(sf);
          }
        } else if sf.error == SendNaked || sf.error == SendCancelled {
          if sf.tries < MAX_SEND_TRY_COUNT {
            acts := Retry(sf);
          } else {
            acts := Finish(sf);
          }
        }
      }
    }

    /** session_receive_step with the byte that has arrived. */
    method ReceiveStep(b: Byte) returns (acts: seq<Action>)
      requires Valid()
      modifies this, fs, fs.frameSend, queue
      ensures Valid() && (State(), acts) == Step(old(State()), Arrived(b))
      ensures fs.written == old(fs.written) + Bytes(acts)
    {
      hide RxConsistent, RxStep, Concluded, Told, Frame.Wire, Frame.Sent, Values, Bytes;
      ghost var flight, waiting := fs.frameSend, State().waiting;
      var out, over := fs.ReceiveStep(b);
      assert Waiting(flight) == waiting;
      if out.Verdict? {
        VerdictKind(old(fs.Rx()), b);
        acts := SendOver(over);
      } else {
        acts := Told(out);
        BytesOfTold(out);
      }
    }

    /** The receive timer fires. */
    method ReceiveTimer() returns (acts: seq<Action>)
      requires Valid() && fs.timerRecv
      modifies fs
      ensures Valid() && (State(), acts) == Step(old(State()), RecvTimer)
      ensures fs.written == old(fs.written) + Bytes(acts)
    {
      hide RxConsistent, Concluded, Values, Bytes;
      var out := fs.ReceiveTimer();
      assert State().waiting == old(State()).waiting;
      acts := Told(out);
      BytesOfTold(out);
    }

    /** The send timer fires: frame_send_timer_callback. */
    method SendTimerFires() returns (acts: seq<Action>)
      requires Valid() && fs.timerSend
      modifies this, fs, fs.frameSend, queue
      ensures Valid() && (State(), acts) == Step(old(State()), SendTimer)
      ensures fs.written == old(fs.written) + Bytes(acts)
    {
      hide RxConsistent, Concluded, Frame.Wire, Frame.Sent, Values, Bytes;
      ghost var flight, waiting := fs.frameSend, State().waiting;
      var over := fs.TakeVerdict(SendTimedOut);
      assert Waiting(flight) == waiting;
      acts := SendOver(over);
    }

    method Retry(sf: DataFrame) returns (acts: seq<Action>)
      requires fs.Valid() && fs.frameSend == null && Linked(sf)
      modifies fs, sf
      ensures Valid() && fs.Rx() == old(fs.Rx())
      ensures acts == [Transmit(old(sf.Value()).Wire())]
      ensures State() == Host(fs.Rx(), Some(old(sf.Value()).Sent()), old(Owed(sf)), old(Waiting(sf)))
      ensures fs.written == old(fs.written) + Bytes(acts)
    {
      hide RxConsistent, Frame.Wire, Frame.Sent, Values, Bytes;
      acts := [Transmit(sf.Value().Wire())];
      BytesOfOne(acts[0]);
      var sent := fs.Send(sf);
    }

    /** lockqueue_pop: the longest queued frame, if there is one. */
    method Pop() returns (x: DataFrame?)
      modifies `queue
      ensures old(queue) == [] ==> x == null && queue == []
      ensures old(queue) != [] ==> x == old(queue)[0] && queue == old(queue)[1..]
    {
      x := null;
      if queue != [] {
        x, queue := queue[0], queue[1..];
      }
    }

    /** The end of a frame: the first pop and what follows. */
    method Finish(sf: DataFrame) returns (acts: seq<Action>)
      requires fs.Valid() && fs.frameSend == null && Linked(sf)
      modifies this, fs, queue
      ensures Valid() && fs.Rx() == old(fs.Rx())
      ensures (State(), acts) == Finished(fs.Rx(), old(sf.Value()), old(Owed(sf)), old(Waiting(sf)))
      ensures fs.written == old(fs.written) + Bytes(acts)
    {
      hide RxConsistent, Proceeded, Values, Bytes, FrameLayer.Rx;
      var judged := sf.Value();
      ghost var waiting := Waiting(sf);
      var x := Pop();
      if x == null || x == sf {
        assert Values(queue) == waiting;
        acts := SendNext(judged);
      } else {
        assert Values(queue) == waiting[1..];
        acts := [Drop(x.Value())];
        BytesOfOne(acts[0]);
        var more := SendNext(judged);
        BytesAppend(acts, more);
        acts := acts + more;
      }
    }

    /** The second pop, the transmission of what it gives, and the callback. */
    method SendNext(judged: Frame) returns (acts: seq<Action>)
      requires fs.Valid() && fs.frameSend == null && Linked(null)
      modifies this, fs, queue
      ensures Valid() && fs.Rx() == old(fs.Rx())
      ensures (State(), acts) == Proceeded(fs.Rx(), judged, old(Values(queue)))
      ensures fs.written == old(fs.written) + Bytes(acts)
    {
      hide RxConsistent, Frame.Wire, Frame.Sent, Values, Bytes;
      BytesOfOne(Complete(judged));
      acts := [Complete(judged)];
      ghost var waiting := Values(queue);
      var x := Pop();
      if x != null {
        x.tries := 0;
        acts := [Transmit(x.Value().Wire()), Complete(judged)];
        BytesOfOne(acts[0]);
        BytesAppend([acts[0]], [Complete(judged)]);
        assert [acts[0]] + [Complete(judged)] == acts;
        var sent := fs.Send(x);
        assert Values(queue) == waiting[1..];
      }
    }
  }
}
