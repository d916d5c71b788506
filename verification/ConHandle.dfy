/** The module side of the serial line: the frame writer and the fall-through receiver of
    ref/conhandle.c. */
module ConHandle {
  import opened Options
  import opened Checksums
  import opened Frames

  const SERBUF_MAX := 180
  const FRAME_LENGTH_MIN := 3
  const FRAME_LENGTH_MAX := SERBUF_MAX

  /** Tick counters are 16-bit words. */
  const TICKS := 65536

  /** con_state; `Beyond` stands for the values after the last named one. */
  datatype ConState = SofHunt | InLen | InType | InCmd | InData | InChecksum | Beyond

  function Next(s: ConState): ConState {
    match s
    case SofHunt => InLen
    case InLen => InType
    case InType => InCmd
    case InCmd => InData
    case InData => InChecksum
    case InChecksum => Beyond
    case Beyond => Beyond
  }

  datatype ConResult = ConIdle | ConFrameReceived | ConFrameSent | ConFrameErr | ConRxTimeout | ConTxTimeout

  /** The variables of ConUpdate. */
  datatype Con = Con(state: ConState, buf: seq<Byte>, bufLen: nat, checksum: Byte,
                     rxActive: bool, needAck: bool, ackStart: nat, byteStart: nat)

  /** A byte and the tick at which it is read. */
  datatype Arrival = Arrival(b: Byte, at: nat)

  /** What one byte does: the new state, the bytes sent and the result so far. */
  datatype Reaction = Reaction(con: Con, out: seq<Byte>, result: ConResult)

  ghost predicate Sized(c: Con) {
    |c.buf| == SERBUF_MAX
  }

  function Restart(c: Con): Con {
    c.(state := SofHunt, rxActive := false)
  }

  /** Case stateData, into which the cases before it fall through. */
  function Stored(c: Con, x: Arrival): (r: Con)
    requires Sized(c)
    ensures Sized(r)
  {
    var c1 :=
      if c.bufLen < SERBUF_MAX then
        var buf := c.buf[c.bufLen := x.b];
        c.(buf := buf, bufLen := c.bufLen + 1, checksum := Xor(c.checksum, x.b),
           state := if c.bufLen + 1 >= ToNat(buf[0]) then Next(c.state) else c.state)
      else c.(state := Next(c.state));
    c1.(byteStart := x.at)
  }

  /** Cases stateType and stateCmd. */
  function Typed(c: Con, x: Arrival): (r: Con)
    requires Sized(c)
    ensures Sized(r)
  {
    if c.bufLen != 0 && x.b > RESPONSE then Restart(c) else Stored(c.(state := Next(c.state)), x)
  }

  /** Case stateSOFHunt. */
  function Hunted(c: Con, x: Arrival): Reaction {
    if x.b == SOF then
      Reaction(c.(checksum := 0xFF, bufLen := 0, rxActive := true, state := InLen, byteStart := x.at), [], ConIdle)
    else if c.needAck && x.b == ACK then Reaction(c.(needAck := false), [], ConFrameSent)
    else if c.needAck && x.b == NAK then Reaction(c.(needAck := false), [], ConTxTimeout)
    else Reaction(c, [], ConIdle)
  }

  /** Case stateChecksum. */
  function Closed(c: Con, b: Byte, acknowledge: bool): Reaction {
    if !acknowledge then Reaction(Restart(c), [CAN], ConIdle)
    else if b == c.checksum then Reaction(Restart(c), [ACK], ConFrameReceived)
    else Reaction(Restart(c), [NAK], ConFrameErr)
  }

  function ConStep(c: Con, x: Arrival, acknowledge: bool): (r: Reaction)
    requires Sized(c)
    ensures Sized(r.con)
  {
    match c.state
    case SofHunt => Hunted(c, x)
    case InLen =>
      if ToNat(x.b) < FRAME_LENGTH_MIN || ToNat(x.b) > FRAME_LENGTH_MAX then Reaction(Restart(c), [], ConIdle)
      else Reaction(Typed(c, x), [], ConIdle)
    case InType => Reaction(Typed(c, x), [], ConIdle)
    case InCmd => Reaction(Stored(c.(state := InData), x), [], ConIdle)
    case InData => Reaction(Stored(c, x), [], ConIdle)
    case InChecksum => Closed(c, x.b, acknowledge)
    case Beyond => Reaction(Restart(c), [], ConIdle)
  }

  /** The reading loop of ConUpdate: it stops behind the first byte that gives a result. */
  function Consume(c: Con, input: seq<Arrival>, acknowledge: bool): (p: (Reaction, nat))
    requires Sized(c)
    ensures Sized(p.0.con) && p.1 <= |input|
    decreases |input|
  {
    if input == [] then (Reaction(c, [], ConIdle), 0)
    else
      var r := ConStep(c, input[0], acknowledge);
      if r.result != ConIdle then (r, 1)
      else
        var (rest, used) := Consume(r.con, input[1..], acknowledge);
        (Reaction(rest.con, r.out + rest.out, rest.result), used + 1)
  }

  function Elapsed(now: nat, start: nat): nat {
    (now - start) % TICKS
  }

  /** The timeouts at the end of ConUpdate. */
  function Timeouts(c: Con, now: nat, rxLimit: nat, ackLimit: nat): (Con, ConResult) {
    var late := c.rxActive && Elapsed(now, c.byteStart) >= rxLimit;
    var c1 := if late then Restart(c) else c;
    if c1.needAck && Elapsed(now, c1.ackStart) >= ackLimit then (c1.(needAck := false), ConTxTimeout)
    else (c1, if late then ConRxTimeout else ConIdle)
  }

  /** ConUpdate. */
  function Updated(c: Con, input: seq<Arrival>, acknowledge: bool, now: nat, rxLimit: nat, ackLimit: nat)
    : (p: (Reaction, nat))
    requires Sized(c)
    ensures Sized(p.0.con)
  {
    var (r, used) := Consume(c, input, acknowledge);
    if r.result != ConIdle then (r, used)
    else
      var (c1, result) := Timeouts(r.con, now, rxLimit, ackLimit);
      (Reaction(c1, r.out, result), used)
  }

  // ---------------------------------------------------------------- what every step keeps

  /** Where the receiver is tells how much of the frame it holds, the frame fits the buffer, and the
      running checksum is that of what it holds. */
  ghost predicate ConOk(c: Con) {
    && Sized(c) && c.state != Beyond && (c.rxActive <==> c.state != SofHunt)
    && (c.rxActive ==> c.bufLen <= SERBUF_MAX && c.checksum == XorAll(0xFF, c.buf[..c.bufLen]))
    && (c.state == InLen ==> c.bufLen == 0)
    && (c.rxActive && c.state != InLen ==> FRAME_LENGTH_MIN <= ToNat(c.buf[0]) <= FRAME_LENGTH_MAX)
    && (c.state == InType ==> c.bufLen == 1)
    && (c.state == InCmd ==> c.bufLen == 2 && c.buf[1] <= RESPONSE)
    && (c.state == InData ==> 3 <= c.bufLen < ToNat(c.buf[0]) && c.buf[1] <= RESPONSE)
    && (c.state == InChecksum ==> c.bufLen == ToNat(c.buf[0]) && c.buf[1] <= RESPONSE)
  }

  lemma XorOneMore(buf: seq<Byte>, n: nat, b: Byte)
    requires n < |buf|
    ensures XorAll(0xFF, buf[n := b][..n + 1]) == Xor(XorAll(0xFF, buf[..n]), b)
  {
    hide Xor;
    assert buf[n := b][..n + 1] == buf[..n] + ([b] + []);
    XorAround(0xFF, buf[..n], b, []);
    XorNext(Xor(XorAll(0xFF, buf[..n]), b), []);
  }

  /** Whatever byte arrives. */
  lemma ConKeeps(c: Con, x: Arrival, acknowledge: bool)
    requires ConOk(c)
    ensures ConOk(ConStep(c, x, acknowledge).con)
  {
    hide Xor, XorAll, ToNat, Typed, Stored;
    match c.state
    case InLen =>
      if FRAME_LENGTH_MIN <= ToNat(x.b) <= FRAME_LENGTH_MAX {
        HeaderKeeps(c, x);
      }
    case InType => HeaderKeeps(c, x);
    case InCmd => DataKeeps(c, x);
    case InData => DataKeeps(c, x);
    case SofHunt =>
      XorNext(0xFF, []);
      assert c.buf[..0] == [];
    case InChecksum =>
    case Beyond =>
  }

  lemma HeaderKeeps(c: Con, x: Arrival)
    requires ConOk(c) && (c.state == InType ||
                          (c.state == InLen && FRAME_LENGTH_MIN <= ToNat(x.b) <= FRAME_LENGTH_MAX))
    ensures ConOk(Typed(c, x))
  {
    hide Xor, XorAll, ToNat;
    XorOneMore(c.buf, c.bufLen, x.b);
  }

  lemma DataKeeps(c: Con, x: Arrival)
    requires ConOk(c) && (c.state == InCmd || c.state == InData)
    ensures ConOk(Stored(c.(state := InData), x))
  {
    hide Xor, XorAll, ToNat;
    XorOneMore(c.buf, c.bufLen, x.b);
  }

  lemma {:induction false} ConsumeKeeps(c: Con, input: seq<Arrival>, acknowledge: bool)
    requires ConOk(c)
    ensures ConOk(Consume(c, input, acknowledge).0.con)
    decreases |input|
  {
    hide ConOk, ConStep;
    if input != [] {
      SizedOk(c);
      ConKeeps(c, input[0], acknowledge);
      var r := ConStep(c, input[0], acknowledge);
      SizedOk(r.con);
      ConsumeKeeps(r.con, input[1..], acknowledge);
    }
  }

  lemma SizedOk(c: Con)
    requires ConOk(c)
    ensures Sized(c)
  {
  }

  /** Main result: over all input and all timeouts a frame never outgrows the buffer, and what is
      being received is as far as the state says. */
  lemma UpdateKeeps(c: Con, input: seq<Arrival>, acknowledge: bool, now: nat, rxLimit: nat, ackLimit: nat)
    requires ConOk(c)
    ensures ConOk(Updated(c, input, acknowledge, now, rxLimit, ackLimit).0.con)
  {
    hide Consume;
    ConsumeKeeps(c, input, acknowledge);
  }

  // ---------------------------------------------------------------- a frame arriving

  /** The bytes, at whatever ticks. */
  ghost predicate Carries(input: seq<Arrival>, bytes: seq<Byte>) {
    |input| == |bytes| && forall i :: 0 <= i < |bytes| ==> input[i].b == bytes[i]
  }

  lemma CarriesNext(input: seq<Arrival>, b: Byte, rest: seq<Byte>)
    requires Carries(input, [b] + rest)
    ensures input != [] && input[0].b == b && Carries(input[1..], rest)
  {
    assert forall i :: 0 <= i < |rest| ==> ([b] + rest)[i + 1] == rest[i];
  }

  lemma ConsumeSilent(c: Con, input: seq<Arrival>, acknowledge: bool)
    requires Sized(c) && input != []
    requires ConStep(c, input[0], acknowledge).result == ConIdle && ConStep(c, input[0], acknowledge).out == []
    ensures var c1 := ConStep(c, input[0], acknowledge).con;
            var (r, used) := Consume(c1, input[1..], acknowledge); Consume(c, input, acknowledge) == (r, used + 1)
  {
    hide ConStep;
    var rest := Consume(ConStep(c, input[0], acknowledge).con, input[1..], acknowledge).0;
    assert [] + rest.out == rest.out;
  }

  /** The bytes of a frame body go into the buffer one after the other. */
  lemma {:induction false} BodyStored(c: Con, input: seq<Arrival>, body: seq<Byte>, check: Byte, acknowledge: bool)
    requires ConOk(c) && c.state == InData && c.bufLen + |body| == ToNat(c.buf[0])
    requires Carries(input, body + [check])
    ensures var sum := XorAll(c.checksum, body);
            var reply := Closed(c.(checksum := sum), check, acknowledge);
            var (r, used) := Consume(c, input, acknowledge);
            used == |input| && r.out == reply.out && r.result == reply.result &&
            r.con.state == SofHunt && !r.con.rxActive && r.con.needAck == c.needAck &&
            r.con.ackStart == c.ackStart && Sized(r.con) &&
            r.con.buf[..c.bufLen + |body|] == c.buf[..c.bufLen] + body
    decreases |body|
  {
    hide Xor, XorAll, ToNat, ConStep, ConOk, Consume, Carries;
    BodyRoom(c, body);
    var b := body[0];
    BodyCarried(input, body, check);
    BodyByte(c, input[0], acknowledge);
    ConKeeps(c, input[0], acknowledge);
    ConsumeSilent(c, input, acknowledge);
    XorNext(c.checksum, body);
    var c1 := ConStep(c, input[0], acknowledge).con;
    BufferGrows(c.buf, c.bufLen, body);
    if |body| == 1 {
      assert body[1..] == [];
      CheckArrives(c1, input[1..], check, acknowledge);
      XorNext(c1.checksum, []);
    } else {
      BodyStored(c1, input[1..], body[1..], check, acknowledge);
    }
  }

  lemma BodyCarried(input: seq<Arrival>, body: seq<Byte>, check: Byte)
    requires body != [] && Carries(input, body + [check])
    ensures input != [] && input[0].b == body[0] && Carries(input[1..], body[1..] + [check])
  {
    assert body + [check] == [body[0]] + (body[1..] + [check]);
    CarriesNext(input, body[0], body[1..] + [check]);
  }

  lemma BufferGrows(buf: seq<Byte>, n: nat, body: seq<Byte>)
    requires n < |buf| && body != []
    ensures buf[n := body[0]][..n + 1] + body[1..] == buf[..n] + body
    ensures |body| == 1 ==> buf[n := body[0]][..n + 1] == buf[..n] + body
  {
  }

  lemma BodyRoom(c: Con, body: seq<Byte>)
    requires ConOk(c) && c.state == InData && c.bufLen + |body| == ToNat(c.buf[0])
    ensures body != [] && Sized(c) && 3 <= c.bufLen < SERBUF_MAX
  {
  }

  lemma BodyByte(c: Con, x: Arrival, acknowledge: bool)
    requires ConOk(c) && c.state == InData
    ensures c.bufLen < |c.buf|
    ensures ConStep(c, x, acknowledge) ==
            Reaction(c.(buf := c.buf[c.bufLen := x.b], bufLen := c.bufLen + 1, checksum := Xor(c.checksum, x.b),
                        state := if c.bufLen + 1 == ToNat(c.buf[0]) then InChecksum else InData, byteStart := x.at),
                     [], ConIdle)
  {
    hide Xor, XorAll, ToNat;
  }

  lemma CheckArrives(c: Con, input: seq<Arrival>, check: Byte, acknowledge: bool)
    requires ConOk(c) && c.state == InChecksum && Carries(input, [] + [check])
    ensures var (r, used) := Consume(c, input, acknowledge); var reply := Closed(c, check, acknowledge);
            r == reply && used == |input| && Sized(r.con)
  {
    assert input[1..] == [];
    var reply := Closed(c, check, acknowledge);
    assert Consume(reply.con, [], acknowledge).0 == Reaction(reply.con, [], ConIdle);
    assert reply.out + [] == reply.out;
  }

  /** The four bytes in front of the payload. */
  lemma HeaderArrives(c: Con, input: seq<Arrival>, n: nat, kind: Byte, cmd: Byte, rest: seq<Byte>, acknowledge: bool)
      returns (c1: Con)
    requires ConOk(c) && c.state == SofHunt && kind <= RESPONSE && FRAME_LENGTH_MIN <= n <= FRAME_LENGTH_MAX
    requires Carries(input, [SOF] + ([LowByte(n)] + ([kind] + ([cmd] + rest))))
    ensures ConOk(c1) && c1.state == (if n == 3 then InChecksum else InData) && c1.bufLen == 3
    ensures ToNat(c1.buf[0]) == n && c1.buf[..3] == [LowByte(n), kind, cmd]
    ensures c1.needAck == c.needAck && c1.ackStart == c.ackStart
    ensures Carries(input[4..], rest)
    ensures var (r, used) := Consume(c1, input[4..], acknowledge); Consume(c, input, acknowledge) == (r, used + 4)
  {
    hide Xor, XorAll, ToByte, ToNat, Consume, Carries, ConOk;
    assert ToNat(LowByte(n)) == n;
    CarriesNext(input, SOF, [LowByte(n)] + ([kind] + ([cmd] + rest)));
    CarriesNext(input[1..], LowByte(n), [kind] + ([cmd] + rest));
    CarriesNext(input[1..][1..], kind, [cmd] + rest);
    CarriesNext(input[1..][1..][1..], cmd, rest);
    assert input[1..][1..][1..][1..] == input[4..];
    SofArrives(c, input[0], acknowledge);
    ConsumeSilent(c, input, acknowledge);
    var a := ConStep(c, input[0], acknowledge).con;
    ByteArrives(a, input[1], n, acknowledge);
    ConsumeSilent(a, input[1..], acknowledge);
    var b := ConStep(a, input[1], acknowledge).con;
    ByteArrives(b, input[2], n, acknowledge);
    ConsumeSilent(b, input[1..][1..], acknowledge);
    var d := ConStep(b, input[2], acknowledge).con;
    ByteArrives(d, input[3], n, acknowledge);
    ConsumeSilent(d, input[1..][1..][1..], acknowledge);
    c1 := ConStep(d, input[3], acknowledge).con;
  }

  lemma SofArrives(c: Con, x: Arrival, acknowledge: bool)
    requires ConOk(c) && c.state == SofHunt && x.b == SOF
    ensures var r := ConStep(c, x, acknowledge);
            r.result == ConIdle && r.out == [] && ConOk(r.con) && r.con.state == InLen && r.con.bufLen == 0 &&
            r.con.needAck == c.needAck && r.con.ackStart == c.ackStart
    ensures Sized(c)
  {
    ConKeeps(c, x, acknowledge);
  }

  /** A header byte of a frame that announces `n`. */
  lemma ByteArrives(c: Con, x: Arrival, n: nat, acknowledge: bool)
    requires ConOk(c) && c.state in {InLen, InType, InCmd} && FRAME_LENGTH_MIN <= n <= FRAME_LENGTH_MAX
    requires c.state == InLen ==> ToNat(x.b) == n
    requires c.state != InLen ==> ToNat(c.buf[0]) == n
    requires c.state == InType ==> x.b <= RESPONSE
    ensures var r := ConStep(c, x, acknowledge);
            r.result == ConIdle && r.out == [] && ConOk(r.con) && r.con.bufLen == c.bufLen + 1 <= |c.buf| &&
            r.con.buf == c.buf[c.bufLen := x.b] && ToNat(r.con.buf[0]) == n &&
            r.con.needAck == c.needAck && r.con.ackStart == c.ackStart &&
            r.con.state == (if c.state == InLen then InType else if c.state == InType then InCmd
                            else if n == 3 then InChecksum else InData)
    ensures Sized(c) && c.bufLen == (if c.state == InLen then 0 else if c.state == InType then 1 else 2)
  {
    hide Xor, XorAll, ToNat;
    ConKeeps(c, x, acknowledge);
  }

  /** Main result: a frame of up to 177 payload bytes that reaches a hunting module is answered at
      its last byte and not before: with ACK and the frame in the buffer if its checksum byte is
      right, with NAK if not, and with CAN when the caller does not want frames now. */
  lemma FrameIsTakenExactly(c: Con, input: seq<Arrival>, kind: Byte, cmd: Byte, payload: seq<Byte>, check: Byte,
                            acknowledge: bool)
    requires ConOk(c) && c.state == SofHunt && kind <= RESPONSE && |payload| <= 177
    requires Carries(input, Raw(kind, cmd, payload, check))
    ensures var (r, used) := Consume(c, input, acknowledge);
            var good := check == Sum(Announced(payload), kind, cmd, payload);
            used == |input| && ConOk(r.con) && r.con.state == SofHunt &&
            r.con.needAck == c.needAck && r.con.ackStart == c.ackStart &&
            r.con.buf[..Announced(payload)] == Body(Announced(payload), kind, cmd, payload) &&
            r.out == [if !acknowledge then CAN else if good then ACK else NAK] &&
            r.result == if !acknowledge then ConIdle else if good then ConFrameReceived else ConFrameErr
  {
    hide Xor, XorAll, LowByte, ToNat, Consume, ConOk, ConStep, Carries;
    var n := Announced(payload);
    RawFrom(kind, cmd, payload, check);
    var c1 := HeaderArrives(c, input, n, kind, cmd, payload + [check], acknowledge);
    ConsumeKeeps(c, input, acknowledge);
    HeaderSum(c1, n, kind, cmd, payload);
    if payload == [] {
      CheckArrives(c1, input[4..], check, acknowledge);
    } else {
      BodyStored(c1, input[4..], payload, check, acknowledge);
    }
    assert Body(n, kind, cmd, payload) == [LowByte(n), kind, cmd] + payload;
  }

  lemma RawFrom(kind: Byte, cmd: Byte, payload: seq<Byte>, check: Byte)
    ensures Raw(kind, cmd, payload, check)
         == [SOF] + ([LowByte(Announced(payload))] + ([kind] + ([cmd] + (payload + [check]))))
  {
    hide LowByte;
  }

  lemma HeaderSum(c: Con, n: nat, kind: Byte, cmd: Byte, payload: seq<Byte>)
    requires ConOk(c) && c.state != SofHunt && c.bufLen == 3 && c.buf[..3] == [LowByte(n), kind, cmd]
    ensures XorAll(c.checksum, payload) == Sum(n, kind, cmd, payload)
    ensures payload == [] ==> c.checksum == Sum(n, kind, cmd, payload)
  {
    hide Xor, XorAll, LowByte;
    XorAppend(0xFF, [LowByte(n), kind, cmd], payload);
    XorNext(c.checksum, []);
  }

  // ---------------------------------------------------------------- what an update answers

  /** The result a byte gives, if any: ACK and NAK while hunting with a frame of its own still to be answered,
      and the checksum byte of a frame that is wanted. */
  function Answer(c: Con, b: Byte, acknowledge: bool): ConResult {
    if c.state == SofHunt && c.needAck && b == 0x06 then ConFrameSent
    else if c.state == SofHunt && c.needAck && b == 0x15 then ConTxTimeout
    else if c.state == InChecksum && acknowledge then (if b == c.checksum then ConFrameReceived else ConFrameErr)
    else ConIdle
  }

  /** What a byte is answered with on the line: 0x06, 0x15 or 0x18 for the checksum byte of a frame. */
  function Reply(c: Con, b: Byte, acknowledge: bool): seq<Byte> {
    if c.state != InChecksum then [] else if !acknowledge then [0x18] else if b == c.checksum then [0x06] else [0x15]
  }

  /** The variables after the first `k` bytes. */
  function After(c: Con, input: seq<Arrival>, k: nat, acknowledge: bool): (d: Con)
    requires Sized(c) && k <= |input|
    ensures Sized(d)
    decreases k
  {
    if k == 0 then c else ConStep(After(c, input, k - 1, acknowledge), input[k - 1], acknowledge).con
  }

  /** What has been answered to them. */
  function Replies(c: Con, input: seq<Arrival>, k: nat, acknowledge: bool): seq<Byte>
    requires Sized(c) && k <= |input|
    decreases k
  {
    if k == 0 then []
    else
      Replies(c, input, k - 1, acknowledge) + Reply(After(c, input, k - 1, acknowledge), input[k - 1].b, acknowledge)
  }

  /** Byte `k` gives a result and none before it does. */
  ghost predicate FirstAnswer(c: Con, input: seq<Arrival>, k: nat, acknowledge: bool)
    requires Sized(c)
  {
    && k < |input| && Answer(After(c, input, k, acknowledge), input[k].b, acknowledge) != ConIdle
    && forall i: nat :: i < k ==> Answer(After(c, input, i, acknowledge), input[i].b, acknowledge) == ConIdle
  }

  /** One byte: the result, when the last byte of a frame came, and what becomes of the wait. */
  lemma StepAnswers(c: Con, x: Arrival, acknowledge: bool)
    requires Sized(c)
    ensures var r := ConStep(c, x, acknowledge);
            && r.result == Answer(c, x.b, acknowledge) && r.out == Reply(c, x.b, acknowledge)
            && r.con.ackStart == c.ackStart
            && r.con.needAck == (c.needAck && !(c.state == SofHunt && x.b in {0x06, 0x15}))
            && (r.con.rxActive && (c.rxActive <==> c.state != SofHunt) ==> r.con.byteStart == x.at)
            && ((c.rxActive <==> c.state != SofHunt) ==> (r.con.rxActive <==> r.con.state != SofHunt))
  {
    hide Xor, ToNat;
  }

  lemma {:induction false} AfterNext(c: Con, input: seq<Arrival>, k: nat, acknowledge: bool)
    requires Sized(c) && 0 < k <= |input|
    ensures After(c, input, k, acknowledge) ==
            After(ConStep(c, input[0], acknowledge).con, input[1..], k - 1, acknowledge)
    decreases k
  {
    hide ConStep;
    if k > 1 {
      AfterNext(c, input, k - 1, acknowledge);
    } else {
      assert After(c, input, 0, acknowledge) == c;
    }
  }

  lemma {:induction false} RepliesNext(c: Con, input: seq<Arrival>, k: nat, acknowledge: bool)
    requires Sized(c) && 0 < k <= |input|
    ensures Replies(c, input, k, acknowledge) == Reply(c, input[0].b, acknowledge) +
            Replies(ConStep(c, input[0], acknowledge).con, input[1..], k - 1, acknowledge)
    decreases k
  {
    hide ConStep, Reply, After;
    var d := ConStep(c, input[0], acknowledge).con;
    AfterNothing(c, input, acknowledge);
    if k > 1 {
      AfterNext(c, input, k - 1, acknowledge);
      RepliesNext(c, input, k - 1, acknowledge);
      assert input[k - 1] == input[1..][k - 2];
    }
  }

  /** The reading loop stops behind the first byte that gives a result. */
  lemma {:induction false} ConsumeExactly(c: Con, input: seq<Arrival>, acknowledge: bool)
    requires Sized(c)
    ensures var (r, n) := Consume(c, input, acknowledge);
            && n <= |input| && r.con == After(c, input, n, acknowledge) && r.out == Replies(c, input, n, acknowledge)
            && (r.result != ConIdle ==>
                  n > 0 && FirstAnswer(c, input, n - 1, acknowledge) &&
                  r.result == Answer(After(c, input, n - 1, acknowledge), input[n - 1].b, acknowledge))
            && (r.result == ConIdle ==>
                  n == |input| && forall k: nat :: !FirstAnswer(c, input, k, acknowledge))
    decreases |input|
  {
    hide ConStep, Answer, Reply, Replies;
    RepliesNone(c, input, acknowledge);
    if input != [] {
      var step := ConStep(c, input[0], acknowledge);
      StepAnswers(c, input[0], acknowledge);
      assert After(c, input, 0, acknowledge) == c;
      var (r, n) := Consume(c, input, acknowledge);
      if step.result == ConIdle {
        ConsumeExactly(step.con, input[1..], acknowledge);
        RepliesNext(c, input, n, acknowledge);
        forall k: nat | 0 < k <= |input|
          ensures After(c, input, k, acknowledge) == After(step.con, input[1..], k - 1, acknowledge)
        {
          AfterNext(c, input, k, acknowledge);
        }
        forall k: nat
          ensures FirstAnswer(c, input, k, acknowledge)
                  <==> k > 0 && FirstAnswer(step.con, input[1..], k - 1, acknowledge)
        {
          FirstLater(c, input, k, acknowledge);
        }
      } else {
        AfterNext(c, input, 1, acknowledge);
        RepliesNext(c, input, 1, acknowledge);
        RepliesNone(step.con, input[1..], acknowledge);
        assert r.out + [] == r.out;
        assert After(step.con, input[1..], 0, acknowledge) == step.con;
        assert FirstAnswer(c, input, 0, acknowledge);
      }
    }
  }

  lemma RepliesNone(c: Con, input: seq<Arrival>, acknowledge: bool)
    requires Sized(c)
    ensures Replies(c, input, 0, acknowledge) == []
  {
  }

  lemma FirstLater(c: Con, input: seq<Arrival>, k: nat, acknowledge: bool)
    requires Sized(c) && input != [] && Answer(c, input[0].b, acknowledge) == ConIdle
    ensures var d := ConStep(c, input[0], acknowledge).con;
            FirstAnswer(c, input, k, acknowledge) <==> k > 0 && FirstAnswer(d, input[1..], k - 1, acknowledge)
  {
    hide ConStep, Answer;
    var d := ConStep(c, input[0], acknowledge).con;
    assert After(c, input, 0, acknowledge) == c;
    forall i: nat | 0 < i < |input|
      ensures After(c, input, i, acknowledge) == After(d, input[1..], i - 1, acknowledge)
      ensures input[i] == input[1..][i - 1]
    {
      AfterNext(c, input, i, acknowledge);
    }
    if k > 0 && FirstAnswer(d, input[1..], k - 1, acknowledge) {
      forall i: nat | i < k
        ensures Answer(After(c, input, i, acknowledge), input[i].b, acknowledge) == ConIdle
      {
        if i > 0 {
          assert Answer(After(d, input[1..], i - 1, acknowledge), input[1..][i - 1].b, acknowledge) == ConIdle;
        }
      }
    }
    if k > 0 && FirstAnswer(c, input, k, acknowledge) {
      forall i: nat | i < k - 1
        ensures Answer(After(d, input[1..], i, acknowledge), input[1..][i].b, acknowledge) == ConIdle
      {
        assert Answer(After(c, input, i + 1, acknowledge), input[i + 1].b, acknowledge) == ConIdle;
      }
    }
  }

  /** While a frame is being received the byte timer was started by the last byte; the wait for an answer was
      started by the last transmission. */
  lemma {:induction false} TimersStart(c: Con, input: seq<Arrival>, k: nat, acknowledge: bool)
    requires Sized(c) && (c.rxActive <==> c.state != SofHunt) && k <= |input|
    ensures var d := After(c, input, k, acknowledge);
            && (d.rxActive <==> d.state != SofHunt) && d.ackStart == c.ackStart
            && (d.rxActive && k > 0 ==> d.byteStart == input[k - 1].at)
    decreases k
  {
    hide ConStep;
    if k > 0 {
      TimersStart(c, input, k - 1, acknowledge);
      StepAnswers(After(c, input, k - 1, acknowledge), input[k - 1], acknowledge);
    }
  }

  /** Main result: what ConUpdate answers, over all input.  The first byte that gives a result decides.  If
      there is none, an answer that has not come within its limit gives a timeout, and otherwise a frame
      whose next byte has not come within its limit does; ticks are counted in 16 bits. */
  lemma UpdateAnswers(c: Con, input: seq<Arrival>, acknowledge: bool, now: nat, rxLimit: nat, ackLimit: nat)
    requires Sized(c) && (c.rxActive <==> c.state != SofHunt)
    ensures var (r, n) := Updated(c, input, acknowledge, now, rxLimit, ackLimit);
            var d := After(c, input, n, acknowledge);
            var lastByte := if input == [] then c.byteStart else input[|input| - 1].at;
            var late := d.rxActive && (now - lastByte) % 65536 >= rxLimit;
            var unanswered := d.needAck && (now - c.ackStart) % 65536 >= ackLimit;
            && n <= |input| && r.out == Replies(c, input, n, acknowledge)
            && (forall k: nat :: FirstAnswer(c, input, k, acknowledge) ==>
                  && n == k + 1 && r.con == d
                  && r.result == Answer(After(c, input, k, acknowledge), input[k].b, acknowledge))
            && ((forall k: nat :: !FirstAnswer(c, input, k, acknowledge)) ==>
                  && n == |input|
                  && r.result == (if unanswered then ConTxTimeout else if late then ConRxTimeout else ConIdle)
                  && r.con == d.(state := if late then SofHunt else d.state, rxActive := d.rxActive && !late,
                                 needAck := d.needAck && !unanswered))
  {
    hide Consume, After, FirstAnswer, Replies;
    ConsumeExactly(c, input, acknowledge);
    var (r, n) := Consume(c, input, acknowledge);
    forall i: nat, k: nat | FirstAnswer(c, input, i, acknowledge) && FirstAnswer(c, input, k, acknowledge)
      ensures i == k
    {
      OneFirst(c, input, i, k, acknowledge);
    }
    TimersStart(c, input, n, acknowledge);
    if input == [] {
      AfterNothing(c, input, acknowledge);
    }
  }

  lemma OneFirst(c: Con, input: seq<Arrival>, i: nat, k: nat, acknowledge: bool)
    requires Sized(c) && FirstAnswer(c, input, i, acknowledge) && FirstAnswer(c, input, k, acknowledge)
    ensures i == k
  {
    hide After, Answer;
  }

  lemma AfterNothing(c: Con, input: seq<Arrival>, acknowledge: bool)
    requires Sized(c)
    ensures After(c, input, 0, acknowledge) == c
  {
  }

  /** So a frame is reported as sent if and only if the first byte that gives a result is an ACK read while
      hunting and waiting, and as not answered if and only if that byte is such a NAK, or there is none and
      the wait has reached its limit. */
  lemma SentExactly(c: Con, input: seq<Arrival>, acknowledge: bool, now: nat, rxLimit: nat, ackLimit: nat)
    requires Sized(c) && (c.rxActive <==> c.state != SofHunt)
    ensures var result := Updated(c, input, acknowledge, now, rxLimit, ackLimit).0.result;
            && (result == ConFrameSent <==> Answered(c, input, 0x06, acknowledge))
            && (result == ConTxTimeout <==>
                  || Answered(c, input, 0x15, acknowledge)
                  || ((forall k: nat :: !FirstAnswer(c, input, k, acknowledge)) &&
                      After(c, input, |input|, acknowledge).needAck && (now - c.ackStart) % 65536 >= ackLimit))
  {
    hide Updated, After;
    UpdateAnswers(c, input, acknowledge, now, rxLimit, ackLimit);
    if k: nat :| FirstAnswer(c, input, k, acknowledge) {
      forall i: nat | FirstAnswer(c, input, i, acknowledge)
        ensures i == k
      {
        OneFirst(c, input, i, k, acknowledge);
      }
    }
  }

  /** The first byte that gives a result is `b`, read while hunting and waiting. */
  ghost predicate Answered(c: Con, input: seq<Arrival>, b: Byte, acknowledge: bool)
    requires Sized(c)
  {
    exists k: nat :: FirstAnswer(c, input, k, acknowledge) && input[k].b == b &&
                     var d := After(c, input, k, acknowledge); d.state == SofHunt && d.needAck
  }

  /** After SOF a length from 3 to 180 is accepted, and after that a type of 0 or 1. */
  lemma HeaderExactly(c: Con, sof: Arrival, n: Arrival, kind: Arrival, acknowledge: bool)
    requires Sized(c) && c.state == SofHunt && sof.b == 0x01
    ensures var c2 := ConStep(ConStep(c, sof, acknowledge).con, n, acknowledge).con;
            && c2.state == (if 3 <= ToNat(n.b) <= 180 then InType else SofHunt)
            && (c2.state == InType ==>
                  ConStep(c2, kind, acknowledge).con.state == if kind.b in {0x00, 0x01} then InCmd else SofHunt)
  {
    hide Xor, ToNat;
    assert kind.b <= 0x01 <==> kind.b in {0x00, 0x01};
  }

  // ---------------------------------------------------------------- the object

  /** The global variables of conhandle.c; `written` is what has gone to the serial port. */
  class Module {
    const serBuf: array<Byte>
    var serBufLen: nat
    var conState: ConState
    var checksumRx: Byte
    var rxActive: bool
    var needAck: bool
    var ackStart: nat
    var byteStart: nat
    var rxLimit: nat
    var ackLimit: nat
    // what ConTxFrame remembers for a retransmission
    var txBuf: array?<Byte>
    var txLen: Byte
    var txCmd: Byte
    var txType: Byte
    var written: seq<Byte>

    function State(): Con
      reads this, serBuf
    {
      Con(conState, serBuf[..], serBufLen, checksumRx, rxActive, needAck, ackStart, byteStart)
    }

    ghost predicate Valid()
      reads this, serBuf
    {
      Sized(State()) && serBuf != txBuf
    }

    /** The frame ConTxFrame would send again. */
    function Remembered(): seq<Byte>
      reads this, txBuf
      requires txBuf != null ==> ToNat(txLen) <= txBuf.Length
    {
      Packet(txType, txCmd, if txBuf == null then [] else txBuf[..ToNat(txLen)])
    }

    /** ConInit. */
    constructor ()
      ensures Valid() && ConOk(State()) && fresh(serBuf) && written == []
      ensures txBuf == null && txLen == 0 && rxLimit == 15 && ackLimit == 150
    {
      serBuf := new Byte[SERBUF_MAX];
      serBufLen, conState, checksumRx, rxActive, needAck := 0, SofHunt, 0, false, false;
      ackStart, byteStart, rxLimit, ackLimit := 0, 0, 15, 150;
      txBuf, txLen, txCmd, txType := null, 0, 0, 0;
      written := [];
    }

    /** ConTxFrame; without a buffer it sends again what it sent last. */
    method TxFrame(cmd: Byte, kind: Byte, data: array?<Byte>, len: Byte, now: nat)
      requires data != null ==> ToNat(len) <= data.Length && data != serBuf
      requires data == null && txBuf != null ==> ToNat(txLen) <= txBuf.Length
      requires data == null && txBuf == null ==> txLen == 0
      modifies this
      ensures data != null ==> txBuf == data && txLen == len && txCmd == cmd && txType == kind
      ensures data == null ==>
                txBuf == old(txBuf) && txLen == old(txLen) && txCmd == old(txCmd) && txType == old(txType)
      ensures txBuf != null ==> ToNat(txLen) <= txBuf.Length
      ensures txBuf == null ==> txLen == 0
      ensures written == old(written) + Remembered()
      ensures State() == old(State()).(needAck := true, ackStart := now)
      ensures rxLimit == old(rxLimit) && ackLimit == old(ackLimit)
    {
      hide Packet, ToNat;
      if data != null {
        txBuf, txLen, txCmd, txType := data, len, cmd, kind;
      }
      var out := Compose();
      written := written + out;
      needAck, ackStart := true, now;
    }

    /** The bytes ConTxFrame puts out, one after the other. */
    method Compose() returns (out: seq<Byte>)
      requires txBuf != null ==> ToNat(txLen) <= txBuf.Length
      requires txBuf == null ==> txLen == 0
      ensures out == Remembered()
    {
      hide Xor, XorAll, LowByte, Raw, Sum, ToNat;
      ZeroByte();
      ghost var payload := if txBuf == null then [] else txBuf[..ToNat(txLen)];
      var n := LowByte(ToNat(txLen) + 3);
      out := [SOF, n, txType, txCmd];
      var sum := Xor(Xor(Xor(0xFF, n), txType), txCmd);
      SumStart(Announced(payload), txType, txCmd, payload);
      var i := 0;
      while txBuf != null && i < ToNat(txLen)
        invariant i <= |payload| && out == [SOF, n, txType, txCmd] + payload[..i]
        invariant XorAll(sum, payload[i..]) == Sum(Announced(payload), txType, txCmd, payload)
      {
        XorNext(sum, payload[i..]);
        SlicesNext(payload, i);
        AppendNext([SOF, n, txType, txCmd], payload[..i], txBuf[i]);
        out := out + [txBuf[i]];
        sum := Xor(sum, txBuf[i]);
        i := i + 1;
      }
      XorNext(sum, []);
      assert payload[i..] == [] && payload[..i] == payload;
      RawInPieces(txType, txCmd, payload, sum);
      out := out + [sum];
    }

    /** Case stateData of the switch in ConUpdate. */
    method StoreByte(x: Arrival)
      requires Valid()
      modifies `serBufLen, `conState, `checksumRx, `byteStart, serBuf
      ensures State() == Stored(old(State()), x)
    {
      hide Xor, ToNat;
      if serBufLen < SERBUF_MAX {
        serBuf[serBufLen] := x.b;
        serBufLen := serBufLen + 1;
        checksumRx := Xor(checksumRx, x.b);
        if serBufLen >= ToNat(serBuf[0]) {
          conState := Next(conState);
        }
      } else {
        conState := Next(conState);
      }
      byteStart := x.at;
    }

    /** Case stateCheckSum. */
    method CompareChecksum(b: Byte, acknowledge: bool) returns (result: ConResult)
      requires Valid()
      modifies `conState, `rxActive, `written
      ensures var r := Closed(old(State()), b, acknowledge);
              State() == r.con && result == r.result && written == old(written) + r.out
    {
      result := ConIdle;
      if acknowledge {
        if b == checksumRx {
          written, result := written + [ACK], ConFrameReceived;
        } else {
          written, result := written + [NAK], ConFrameErr;
        }
      } else {
        written := written + [CAN];
      }
      conState, rxActive := SofHunt, false;
    }

    /** The switch in ConUpdate, with the cases that fall through at the end. */
    method ReceiveByte(x: Arrival, acknowledge: bool) returns (result: ConResult)
      requires Valid()
      modifies `serBufLen, `conState, `checksumRx, `rxActive, `needAck, `byteStart, `written, serBuf
      ensures var r := ConStep(old(State()), x, acknowledge);
              State() == r.con && result == r.result && written == old(written) + r.out
    {
      hide Stored, Closed, ToNat;
      result := ConIdle;
      if conState == SofHunt {
        if x.b == SOF {
          checksumRx, serBufLen, rxActive, conState, byteStart := 0xFF, 0, true, InLen, x.at;
        } else if needAck {
          if x.b == ACK {
            result, needAck := ConFrameSent, false;
          } else if x.b == NAK {
            result, needAck := ConTxTimeout, false;
          }
        }
      } else if conState == InChecksum {
        result := CompareChecksum(x.b, acknowledge);
      } else if conState == Beyond {
        conState, rxActive := SofHunt, false;
      } else {
        if conState == InLen && (ToNat(x.b) < FRAME_LENGTH_MIN || ToNat(x.b) > FRAME_LENGTH_MAX) {
          conState, rxActive := SofHunt, false;
          return;
        }
        if (conState == InLen || conState == InType) && serBufLen != 0 && x.b > RESPONSE {
          conState, rxActive := SofHunt, false;
          return;
        }
        if conState != InData {
          conState := Next(conState);
        }
        StoreByte(x);
      }
    }

    /** The reading loop of ConUpdate. */
    method ReadLoop(input: seq<Arrival>, acknowledge: bool) returns (result: ConResult, used: nat)
      requires Valid()
      modifies `serBufLen, `conState, `checksumRx, `rxActive, `needAck, `byteStart, `written, serBuf
      ensures var (r, n) := Consume(old(State()), input, acknowledge);
              State() == r.con && result == r.result && used == n && written == old(written) + r.out
    {
      hide ConStep, Consume;
      result, used := ConIdle, 0;
      ghost var out := [];
      assert input[0..] == input;
      WithOutputNone(Consume(State(), input, acknowledge).0);
      while used < |input|
        invariant Valid() && used <= |input| && written == old(written) + out && result == ConIdle
        invariant var (r, n) := Consume(State(), input[used..], acknowledge);
                  Consume(old(State()), input, acknowledge) == (WithOutput(out, r), used + n)
      {
        ghost var before := State();
        ConsumeNext(before, input[used..], acknowledge);
        assert input[used..][1..] == input[used + 1..];
        result := ReceiveByte(input[used], acknowledge);
        ghost var reply := ConStep(before, input[used], acknowledge);
        WithOutputTwice(out, reply.out, Consume(reply.con, input[used + 1..], acknowledge).0);
        out := out + reply.out;
        used := used + 1;
        if result != ConIdle {
          return;
        }
      }
      ConsumeNothing(State(), acknowledge);
      assert input[used..] == [];
    }

    /** ConUpdate with the bytes that have arrived and the tick at its end. */
    method Update(input: seq<Arrival>, acknowledge: bool, now: nat) returns (result: ConResult, used: nat)
      requires Valid()
      modifies `serBufLen, `conState, `checksumRx, `rxActive, `needAck, `byteStart, `written, serBuf
      ensures var (r, n) := Updated(old(State()), input, acknowledge, now, rxLimit, ackLimit);
              State() == r.con && result == r.result && used == n && written == old(written) + r.out
    {
      hide Consume;
      result, used := ReadLoop(input, acknowledge);
      if result == ConIdle {
        if rxActive && Elapsed(now, byteStart) >= rxLimit {
          conState, rxActive := SofHunt, false;
          result := ConRxTimeout;
        }
        if needAck && Elapsed(now, ackStart) >= ackLimit {
          needAck := false;
          result := ConTxTimeout;
        }
      }
    }
  }

  lemma ZeroByte()
    ensures ToNat(0) == 0
  {
  }

  lemma SlicesNext(s: seq<Byte>, i: nat)
    requires i < |s|
    ensures s[i..] != [] && s[i..][0] == s[i] && s[i..][1..] == s[i + 1..] && s[..i + 1] == s[..i] + [s[i]]
  {
  }

  lemma AppendNext(a: seq<Byte>, b: seq<Byte>, x: Byte)
    ensures a + (b + [x]) == a + b + [x]
  {
  }

  function WithOutput(out: seq<Byte>, r: Reaction): Reaction {
    r.(out := out + r.out)
  }

  lemma WithOutputNone(r: Reaction)
    ensures WithOutput([], r) == r
  {
    assert [] + r.out == r.out;
  }

  lemma WithOutputTwice(a: seq<Byte>, b: seq<Byte>, r: Reaction)
    ensures WithOutput(a, WithOutput(b, r)) == WithOutput(a + b, r)
  {
    assert a + (b + r.out) == (a + b) + r.out;
  }

  lemma ConsumeNext(c: Con, input: seq<Arrival>, acknowledge: bool)
    requires Sized(c) && input != []
    ensures var reply := ConStep(c, input[0], acknowledge);
            Consume(c, input, acknowledge) ==
            if reply.result != ConIdle then (reply, 1)
            else
              var (r, used) := Consume(reply.con, input[1..], acknowledge); (WithOutput(reply.out, r), used + 1)
  {
    hide ConStep;
  }

  lemma ConsumeNothing(c: Con, acknowledge: bool)
    requires Sized(c)
    ensures Consume(c, [], acknowledge) == (Reaction(c, [], ConIdle), 0)
  {
  }

  lemma RawInPieces(kind: Byte, cmd: Byte, payload: seq<Byte>, check: Byte)
    ensures [SOF, LowByte(Announced(payload)), kind, cmd] + payload + [check] == Raw(kind, cmd, payload, check)
  {
    hide LowByte;
  }
}
