/** Host and module together: what one end sends, the other takes, and its answer ends the wait. */
module Exchange {
  import opened Options
  import opened Checksums
  import opened Frames
  import opened Sessions
  import opened SessionRuns
  import opened ConHandle

  function ArrivedAll(bytes: seq<Byte>): (es: seq<Event>)
    ensures |es| == |bytes| && forall i :: 0 <= i < |bytes| ==> es[i] == Arrived(bytes[i])
    ensures Quiet(es)
    decreases |bytes|
  {
    if bytes == [] then [] else [Arrived(bytes[0])] + ArrivedAll(bytes[1..])
  }

  lemma {:induction false} ArrivedAllAppend(a: seq<Byte>, b: seq<Byte>)
    ensures ArrivedAll(a + b) == ArrivedAll(a) + ArrivedAll(b)
    decreases |a|
  {
    if a == [] {
      assert a + b == b;
    } else {
      assert (a + b)[1..] == a[1..] + b;
      ArrivedAllAppend(a[1..], b);
    }
  }

  // ---------------------------------------------------------------- module to host

  /** Bytes on which the receiver has nothing to report change nothing else. */
  lemma {:induction false} SilentBytes(h: Host, bytes: seq<Byte>)
    requires HostOk(h) && RxBytes(h.rx, bytes).1 == []
    ensures Run(h, ArrivedAll(bytes)) == (h.(rx := RxBytes(h.rx, bytes).0), [])
    decreases |bytes|
  {
    hide RxStep, RxConsistent;
    if bytes == [] {
      RxNoBytes(h.rx);
    } else {
      RxKeeps(h.rx, Arrive(bytes[0]));
      assert Arrivals(bytes)[1..] == Arrivals(bytes[1..]) && ArrivedAll(bytes)[1..] == ArrivedAll(bytes[1..]);
      var (rx, out) := RxStep(h.rx, bytes[0]);
      assert RxHandle(h.rx, Arrivals(bytes)[0]) == (rx, out);
      assert out.Nothing?;
      RunNext(h, ArrivedAll(bytes));
      var none: seq<Action> := [];
      assert Step(h, Arrived(bytes[0])) == (h.(rx := rx), none);
      SilentBytes(h.(rx := rx), bytes[1..]);
      assert none + none == none;
      assert RxBytes(h.rx, bytes).0 == RxBytes(rx, bytes[1..]).0;
    }
  }

  /** A frame with right or wrong checksum, as the hunting host takes it. */
  lemma HostTakesFrame(h: Host, kind: Byte, cmd: Byte, payload: seq<Byte>, check: Byte)
    requires HostOk(h) && h.rx.state == Hunt && kind in {REQUEST, RESPONSE}
    requires Carried(h.rx.platform.charSigned, Announced(payload))
    ensures var p := Partial(Announced(payload), kind, cmd, payload);
            Run(h, ArrivedAll(Raw(kind, cmd, payload, check))) ==
            (h, if check == Sum(p.len, kind, cmd, payload) then [Acknowledge, Deliver(p, NoError)]
                else [Deliver(p, RecvChecksum)])
  {
    hide RxBytes, Body, Sum, Run;
    var head := [SOF] + Body(Announced(payload), kind, cmd, payload);
    var l := Loaded(h.rx, kind, cmd, payload);
    FrameLoads(h.rx, kind, cmd, payload);
    ArrivedAllAppend(head, [check]);
    SilentBytes(h, head);
    SessionRuns.RunAppend(h, ArrivedAll(head), ArrivedAll([check]));
    RunOne(h.(rx := l), Arrived(check));
    assert ArrivedAll([check]) == [Arrived(check)];
    assert Hunting(l) == h.rx;
    var p := Partial(Announced(payload), kind, cmd, payload);
    var error := if check == Sum(p.len, kind, cmd, payload) then NoError else RecvChecksum;
    assert RxStep(l, check) == (h.rx, Delivered(p, error));
    var none: seq<Action> := [];
    var acts := (if error == NoError then [Acknowledge] else []) + [Deliver(p, error)];
    assert h.(rx := l).(rx := h.rx) == h;
    assert Step(h.(rx := l), Arrived(check)) == (h, acts);
    assert acts == if error == NoError then [Acknowledge, Deliver(p, error)] else [Deliver(p, error)];
    assert none + acts == acts;
  }

  lemma RunOne(h: Host, e: Event)
    requires HostOk(h)
    ensures Run(h, [e]) == Step(h, e)
  {
    hide Step, HostOk;
    RunNext(h, [e]);
    var (h1, acts) := Step(h, e);
    assert [e][1..] == [] && Run(h1, []) == (h1, []) && acts + [] == acts;
  }

  /** Main result, module to host: what ConTxFrame sends reaches a hunting host as the same frame;
      the host answers with one ACK, and that ends the module's wait as sent. */
  lemma ModuleFrameIsExchanged(h: Host, c: Con, kind: Byte, cmd: Byte, payload: seq<Byte>, at: nat, acknowledge: bool)
    requires HostOk(h) && h.rx.state == Hunt && kind in {REQUEST, RESPONSE}
    requires Carried(h.rx.platform.charSigned, Announced(payload))
    requires ConHandle.Sized(c) && c.state == SofHunt && c.needAck
    ensures var (h1, acts) := Run(h, ArrivedAll(Packet(kind, cmd, payload)));
            h1 == h && acts == [Acknowledge, Deliver(Partial(Announced(payload), kind, cmd, payload), NoError)] &&
            Bytes(acts) == [ACK]
    ensures ConStep(c, Arrival(ACK, at), acknowledge) == Reaction(c.(needAck := false), [], ConFrameSent)
  {
    hide Run, Sum, Raw, RxConsistent;
    HostTakesFrame(h, kind, cmd, payload, Sum(Announced(payload), kind, cmd, payload));
    var p := Partial(Announced(payload), kind, cmd, payload);
    BytesOfTold(Delivered(p, NoError));
    assert [Acknowledge] + [Deliver(p, NoError)] == [Acknowledge, Deliver(p, NoError)];
  }

  // ---------------------------------------------------------------- host to module

  /** A change of the command, a payload byte or the checksum, or of the type into the other type. */
  predicate Harmful(w: seq<Byte>, i: nat, b: Byte) {
    2 <= i < |w| && b != w[i] && (i == 2 ==> b <= RESPONSE)
  }

  ghost predicate CarriesDamaged(input: seq<Arrival>, w: seq<Byte>) {
    exists i: nat, b: Byte :: Harmful(w, i, b) && Carries(input, w[i := b])
  }

  /** A changed byte is a frame again, with a wrong checksum. */
  lemma DamageShows(kind: Byte, cmd: Byte, payload: seq<Byte>, i: nat, b: Byte)
      returns (kind1: Byte, cmd1: Byte, payload1: seq<Byte>, check1: Byte)
    requires kind <= RESPONSE && Harmful(Packet(kind, cmd, payload), i, b)
    ensures Packet(kind, cmd, payload)[i := b] == Raw(kind1, cmd1, payload1, check1)
    ensures kind1 <= RESPONSE && |payload1| == |payload| && check1 != Sum(Announced(payload1), kind1, cmd1, payload1)
  {
    hide XorAll, LowByte;
    var n := Announced(payload);
    var sum := Sum(n, kind, cmd, payload);
    var body := Body(n, kind, cmd, payload);
    kind1, cmd1, payload1, check1 := kind, cmd, payload, sum;
    SingleChange(0xFF, body, if i < n + 1 then i - 1 else 0, b);
    if i == 2 {
      kind1 := b;
      assert body[1 := b] == Body(n, b, cmd, payload);
    } else if i == 3 {
      cmd1 := b;
      assert body[2 := b] == Body(n, kind, b, payload);
    } else if i < n + 1 {
      payload1 := payload[i - 4 := b];
      assert body[i - 1 := b] == Body(n, kind, cmd, payload1);
    } else {
      check1 := b;
    }
    assert Packet(kind, cmd, payload)[i := b] == Raw(kind1, cmd1, payload1, check1);
  }

  lemma DamagedIsNaked(c: Con, input: seq<Arrival>, kind: Byte, cmd: Byte, payload: seq<Byte>)
    requires ConOk(c) && c.state == SofHunt && kind <= RESPONSE && Announced(payload) <= FRAME_LENGTH_MAX
    requires CarriesDamaged(input, Packet(kind, cmd, payload))
    ensures var (r, used) := Consume(c, input, true);
            used == |input| && r.out == [NAK] && r.result == ConFrameErr && ConOk(r.con) && r.con.state == SofHunt
  {
    hide Consume, ConOk, Raw, Sum, Carries, Packet;
    var i: nat, b: Byte :|
      Harmful(Packet(kind, cmd, payload), i, b) && Carries(input, Packet(kind, cmd, payload)[i := b]);
    var kind1, cmd1, payload1, check1 := DamageShows(kind, cmd, payload, i, b);
    FrameIsTakenExactly(c, input, kind1, cmd1, payload1, check1, true);
  }

  /** The module reading one transmission after the other: its state, its answers, its results. */
  function Rounds(c: Con, inputs: seq<seq<Arrival>>): (p: (Con, seq<Byte>, seq<ConResult>))
    requires ConHandle.Sized(c)
    ensures ConHandle.Sized(p.0)
    decreases |inputs|
  {
    if inputs == [] then (c, [], [])
    else
      var r := Consume(c, inputs[0], true).0;
      var (c1, out, results) := Rounds(r.con, inputs[1..]);
      (c1, r.out + out, [r.result] + results)
  }

  lemma {:induction false} RoundsEnd(c: Con, bad: seq<seq<Arrival>>, good: seq<Arrival>, kind: Byte, cmd: Byte,
                                     payload: seq<Byte>)
    requires ConOk(c) && c.state == SofHunt && kind <= RESPONSE && Announced(payload) <= FRAME_LENGTH_MAX
    requires forall i :: 0 <= i < |bad| ==> CarriesDamaged(bad[i], Packet(kind, cmd, payload))
    requires Carries(good, Packet(kind, cmd, payload))
    ensures var (c1, out, results) := Rounds(c, bad + [good]);
            && c1.state == SofHunt && ConOk(c1)
            && c1.buf[..Announced(payload)] == Body(Announced(payload), kind, cmd, payload)
            && out == Repeat(NAK, |bad|) + [ACK]
            && results == Repeat(ConFrameErr, |bad|) + [ConFrameReceived]
    decreases |bad|
  {
    hide Consume, ConOk, Raw, Sum, Carries, CarriesDamaged, Body, LowByte;
    SizedOk(c);
    assert bad == [] ==> (bad + [good])[1..] == [];
    if bad == [] {
      FrameIsTakenExactly(c, good, kind, cmd, payload, Sum(Announced(payload), kind, cmd, payload), true);
      assert Repeat(NAK, 0) + [ACK] == [ACK] + [];
      assert Repeat(ConFrameErr, 0) + [ConFrameReceived] == [ConFrameReceived] + [];
    } else {
      DamagedIsNaked(c, bad[0], kind, cmd, payload);
      var c1 := Consume(c, bad[0], true).0.con;
      SizedOk(c1);
      assert (bad + [good])[1..] == bad[1..] + [good];
      RoundsEnd(c1, bad[1..], good, kind, cmd, payload);
      var k := |bad| - 1;
      assert [NAK] + (Repeat(NAK, k) + [ACK]) == Repeat(NAK, k + 1) + [ACK];
      assert [ConFrameErr] + (Repeat(ConFrameErr, k) + [ConFrameReceived])
          == Repeat(ConFrameErr, k + 1) + [ConFrameReceived];
    }
  }

  lemma {:induction false} NaksThenAck(rx: Receiver, n: nat, k: nat, budget: nat)
    requires RxConsistent(rx) && rx.state == Hunt && n + k <= budget
    ensures TallyAll(Trying(n), Verdicts(rx, ArrivedAll(Repeat(NAK, k) + [ACK])), budget) == Over(n + k, SendAcked)
    decreases k
  {
    hide RxConsistent, Verdicts, TallyAll;
    var replies := Repeat(NAK, k) + [ACK];
    var es := ArrivedAll(replies);
    TallyNext(rx, es, Trying(n), budget);
    assert es[1..] == ArrivedAll(replies[1..]);
    if k == 0 {
      assert replies[0] == ACK;
      TallyOver(Over(n, SendAcked), Verdicts(rx, es[1..]), budget);
    } else {
      assert replies[0] == NAK && replies[1..] == Repeat(NAK, k - 1) + [ACK];
      NaksThenAck(rx, n + 1, k - 1, budget);
    }
  }

  /** Main result, host to module: if fewer copies of a frame are damaged than the sender has
      attempts, the module refuses each of them with NAK and takes the first good one with ACK; fed
      with these answers the host sends exactly that many copies, all alike, and reports the frame
      acknowledged, once. */
  lemma HostFrameIsExchanged(h: Host, f: Frame, c: Con, bad: seq<seq<Arrival>>, good: seq<Arrival>)
    requires HostOk(h) && h.flight.None? && h.rx.state == Hunt
    requires !f.summed && f.len % 256 == Announced(f.payload) % 256
    requires f.kind <= RESPONSE && Announced(f.payload) <= FRAME_LENGTH_MAX
    requires ConOk(c) && c.state == SofHunt && |bad| < Budget(f)
    requires forall i :: 0 <= i < |bad| ==> CarriesDamaged(bad[i], f.Wire())
    requires Carries(good, f.Wire())
    ensures var (c1, replies, results) := Rounds(c, bad + [good]);
            var (h1, acts) := Run(h, [Post(f)] + ArrivedAll(replies));
            && c1.state == SofHunt
            && c1.buf[..Announced(f.payload)] == Body(Announced(f.payload), f.kind, f.cmd, f.payload)
            && results == Repeat(ConFrameErr, |bad|) + [ConFrameReceived]
            && Only(acts, Sending) == Repeat(Transmit(f.Wire()), |bad| + 1)
            && Only(acts, Ending) == [Complete(f.Sent().(error := SendAcked, tries := f.tries + |bad| + 1))]
            && h1.flight.None?
  {
    hide Run, Only, Rounds, ConOk, RxConsistent, Frame.Sent, Frame.Wire, Carries, CarriesDamaged, Repeat, Verdicts,
      TallyAll, Budget, Packet, Body;
    FirstSendRight(f);
    RoundsEnd(c, bad, good, f.kind, f.cmd, f.payload);
    var replies := Repeat(NAK, |bad|) + [ACK];
    NaksThenAck(h.rx, 1, |bad|, Budget(f));
    OneFrameIsStopAndWait(h, f, ArrivedAll(replies));
  }
}
