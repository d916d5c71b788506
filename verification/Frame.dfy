/** The data frames of product/zwave/src/frame.c: what a frame looks like on the wire, sending
    one, and the byte-by-byte receiver.  The layout is the data frame of section 5.4 of INS12350. */
module Frames {
  import opened Options
  import opened Checksums

  const SOF: Byte := 0x01
  const ACK: Byte := 0x06
  const NAK: Byte := 0x15
  const CAN: Byte := 0x18

  /** Type bytes. */
  const REQUEST: Byte := 0x00
  const RESPONSE: Byte := 0x01

  /** Length bytes strictly between these are accepted. */
  const MIN_FRAME_SIZE := 1
  const MAX_FRAME_SIZE := 233

  datatype FrameError = NoError | SendTimedOut | SendAcked | SendNaked | SendCancelled | RecvChecksum | RecvTimedOut

  // ---------------------------------------------------------------- the wire

  /** The low byte of an int. */
  function LowByte(n: int): Byte {
    ToByte(n % 256)
  }

  /** The length a frame should announce. */
  function Announced(payload: seq<Byte>): nat {
    |payload| + 3
  }

  /** What the checksum is taken over. */
  function Body(len: int, kind: Byte, cmd: Byte, payload: seq<Byte>): seq<Byte> {
    [LowByte(len), kind, cmd] + payload
  }

  function Sum(len: int, kind: Byte, cmd: Byte, payload: seq<Byte>): Byte {
    XorAll(0xFF, Body(len, kind, cmd, payload))
  }

  /** A frame with any checksum byte. */
  function Raw(kind: Byte, cmd: Byte, payload: seq<Byte>, check: Byte): seq<Byte> {
    [SOF] + Body(Announced(payload), kind, cmd, payload) + [check]
  }

  /** The frame as INS12350 wants it. */
  function Packet(kind: Byte, cmd: Byte, payload: seq<Byte>): seq<Byte> {
    Raw(kind, cmd, payload, Sum(Announced(payload), kind, cmd, payload))
  }

  lemma LowByteInjective(a: int, b: int)
    ensures LowByte(a) == LowByte(b) <==> a % 256 == b % 256
  {
    hide ToByte, ToNat;
    if LowByte(a) == LowByte(b) {
      assert ToNat(LowByte(a)) == a % 256 && ToNat(LowByte(b)) == b % 256;
    }
  }

  /** The sum tells two announced lengths apart exactly when their low bytes differ. */
  lemma SumOfLength(a: int, b: int, kind: Byte, cmd: Byte, payload: seq<Byte>)
    ensures Sum(a, kind, cmd, payload) == Sum(b, kind, cmd, payload) <==> a % 256 == b % 256
  {
    hide XorAll, LowByte;
    var body := Body(a, kind, cmd, payload);
    assert body[0 := LowByte(b)] == Body(b, kind, cmd, payload);
    SingleChange(0xFF, body, 0, LowByte(b));
    LowByteInjective(a, b);
  }

  /** Main result: bit `k` of the checksum is set if and only if an even number of the bytes from the length
      to the end of the payload have it. */
  lemma SumCountsBits(len: int, kind: Byte, cmd: Byte, payload: seq<Byte>, k: nat)
    requires k < 8
    ensures BitOf(Sum(len, kind, cmd, payload), k) <==> CountBit([LowByte(len), kind, cmd] + payload, k) % 2 == 0
  {
    hide XorAll, LowByte;
    XorCountsBits(0xFF, Body(len, kind, cmd, payload), k);
    AllBitsSet(k);
  }

  lemma AllBitsSet(k: nat)
    requires k < 8
    ensures BitOf(0xFF, k)
  {
  }

  /** The request for the version, byte by byte. */
  lemma VersionRequest()
    ensures Packet(REQUEST, 0x15, []) == [0x01, 0x03, 0x00, 0x15, 0xE9]
  {
    hide XorAll, Xor, LowByte;
    ThreeIsAByte();
    var body := Body(3, REQUEST, 0x15, []);
    assert body == [0x03, 0x00, 0x15];
    assert body[1..] == [0x00, 0x15] && body[1..][1..] == [0x15] && body[1..][1..][1..] == [];
    XorNext(0xFF, body);
    XorNext(0xFC, body[1..]);
    XorNext(0xFC, body[1..][1..]);
    XorNext(0xE9, []);
    VersionSums();
  }

  lemma VersionSums()
    ensures Xor(0xFF, 0x03) == 0xFC && Xor(0xFC, 0x00) == 0xFC && Xor(0xFC, 0x15) == 0xE9
  {
  }

  lemma ThreeIsAByte()
    ensures LowByte(3) == 3
  {
    ByteOfNat(3);
  }

  // ---------------------------------------------------------------- sending

  /** The fields of a stDataFrame_t; `size` is the length of `payload`, `summed` is do_checksum. */
  datatype Frame = Frame(len: int, kind: Byte, cmd: Byte, payload: seq<Byte>,
                         checksum: Byte, checksumCal: Byte, summed: bool, tries: int, error: FrameError)
  {
    function RightSum(): Byte {
      Sum(len, kind, cmd, payload)
    }

    /** After the check at the top of frame_send: a sum is computed if none was, and the checksum
        made equal to it if it is not. */
    function Checked(): Frame {
      var f := if summed then this else this.(summed := true, checksumCal := RightSum());
      if f.checksum == f.checksumCal then f else f.(checksumCal := RightSum(), checksum := RightSum())
    }

    /** The frame after frame_send. */
    function Sent(): Frame {
      Checked().(len := Announced(payload))
    }

    /** The bytes frame_send writes. */
    function Wire(): seq<Byte> {
      Raw(kind, cmd, payload, Checked().checksum)
    }

    /** After a verdict on one transmission. */
    function Judged(e: FrameError): Frame {
      this.(error := e, tries := tries + 1)
    }
  }

  /** A frame that has not been summed yet goes out right exactly when its length field already
      had the right low byte: the sum is taken before the field is corrected. */
  lemma FirstSendRight(f: Frame)
    requires !f.summed
    ensures f.Wire() == Packet(f.kind, f.cmd, f.payload) <==> f.len % 256 == Announced(f.payload) % 256
  {
    hide Sum, Body;
    SumOfLength(f.len, Announced(f.payload), f.kind, f.cmd, f.payload);
    RawCheck(f.kind, f.cmd, f.payload, f.Checked().checksum, Sum(Announced(f.payload), f.kind, f.cmd, f.payload));
  }

  lemma RawCheck(kind: Byte, cmd: Byte, payload: seq<Byte>, a: Byte, b: Byte)
    ensures Raw(kind, cmd, payload, a) == Raw(kind, cmd, payload, b) <==> a == b
  {
    hide Body;
    var p, q := Raw(kind, cmd, payload, a), Raw(kind, cmd, payload, b);
    assert p[|p| - 1] == a && q[|q| - 1] == b;
  }

  /** Any later transmission repeats the first, whatever became of it. */
  lemma ResendSame(f: Frame, e: FrameError, tries: int)
    ensures var again := f.Sent().(error := e, tries := tries);
            again.Wire() == f.Wire() && again.Sent() == again
  {
    hide Sum, Raw;
  }

  /** A stDataFrame_t in memory. */
  class DataFrame {
    var len: int
    var kind: Byte
    var cmd: Byte
    var payload: seq<Byte>
    var checksum: Byte
    var checksumCal: Byte
    var summed: bool
    var tries: int
    var error: FrameError

    function Value(): Frame
      reads this
    {
      Frame(len, kind, cmd, payload, checksum, checksumCal, summed, tries, error)
    }

    constructor (f: Frame)
      ensures Value() == f
    {
      len, kind, cmd, payload := f.len, f.kind, f.cmd, f.payload;
      checksum, checksumCal, summed, tries, error := f.checksum, f.checksumCal, f.summed, f.tries, f.error;
    }

    /** frame_calculate_checksum. */
    method Calculate()
      modifies `checksumCal
      ensures checksumCal == Sum(len, kind, cmd, payload)
    {
      hide Sum, Xor, XorAll;
      var sum := Xor(Xor(Xor(0xFF, LowByte(len)), kind), cmd);
      SumStart(len, kind, cmd, payload);
      var i := 0;
      while i < |payload|
        invariant i <= |payload| && XorAll(sum, payload[i..]) == Sum(len, kind, cmd, payload)
      {
        XorNext(sum, payload[i..]);
        assert payload[i..][1..] == payload[i + 1..];
        sum := Xor(sum, payload[i]);
        i := i + 1;
      }
      XorNext(sum, payload[i..]);
      checksumCal := sum;
    }

    /** frame_checksum_valid. */
    method ChecksumValid() returns (valid: bool)
      modifies `checksumCal, `summed
      ensures summed && checksumCal == (if old(summed) then old(checksumCal) else Sum(len, kind, cmd, payload))
      ensures valid == (checksum == checksumCal)
    {
      if !summed {
        Calculate();
        summed := true;
      }
      valid := checksumCal == checksum;
    }

    /** The check at the top of frame_send. */
    method MakeChecked()
      modifies `summed, `checksumCal, `checksum
      ensures Value() == old(Value()).Checked()
    {
      hide Sum;
      var valid := ChecksumValid();
      if !valid {
        Calculate();
        checksum := checksumCal;
      }
    }

    /** The writes of frame_send, and its correction of the length. */
    method WriteOut() returns (wire: seq<Byte>)
      modifies `len
      ensures len == Announced(payload) && wire == Raw(kind, cmd, payload, checksum)
    {
      hide Raw, LowByte;
      wire := [SOF];
      if len != |payload| + 3 {
        len := |payload| + 3;
      }
      wire := wire + [LowByte(len)];
      wire := wire + [kind];
      wire := wire + [cmd];
      if |payload| > 0 {
        wire := wire + payload;
      }
      wire := wire + [checksum];
      RawInSteps(kind, cmd, payload, checksum);
    }

    /** What frame_send does once it has been let through. */
    method Emit() returns (wire: seq<Byte>)
      modifies this
      ensures Value() == old(Value()).Sent() && wire == old(Value()).Wire()
    {
      hide Sum, Raw;
      MakeChecked();
      wire := WriteOut();
    }
  }

  lemma RawInSteps(kind: Byte, cmd: Byte, payload: seq<Byte>, check: Byte)
    ensures [SOF] + [LowByte(|payload| + 3)] + [kind] + [cmd] + payload + [check] == Raw(kind, cmd, payload, check)
    ensures payload == [] ==>
              [SOF] + [LowByte(|payload| + 3)] + [kind] + [cmd] + [check] == Raw(kind, cmd, payload, check)
  {
    hide LowByte;
  }

  lemma SumStart(len: int, kind: Byte, cmd: Byte, payload: seq<Byte>)
    ensures XorAll(Xor(Xor(Xor(0xFF, LowByte(len)), kind), cmd), payload) == Sum(len, kind, cmd, payload)
    ensures payload[0..] == payload
  {
    hide Xor, XorAll, LowByte;
    var b := Body(len, kind, cmd, payload);
    XorNext(0xFF, b);
    XorNext(Xor(0xFF, LowByte(len)), b[1..]);
    XorNext(Xor(Xor(0xFF, LowByte(len)), kind), b[1..][1..]);
    assert b[1..][1..][1..] == payload;
  }

  // ---------------------------------------------------------------- receiving

  /** `Broken`: the source has written where it has no memory, and the model ends. */
  datatype RxState = Hunt | Length | Kind | Command | Data | Checksum | Broken

  /** The frame being received; `len` is what was stored of the length byte. */
  datatype Partial = Partial(len: int, kind: Byte, cmd: Byte, payload: seq<Byte>)
  {
    predicate Full() {
      |payload| == len - 3
    }
  }

  /** `charSigned` says how the platform reads a plain char, through which the length is stored; `header`
      is the size of a stDataFrame_t, and `fields` where its last field ends. */
  datatype Layout = Layout(charSigned: bool, header: nat, fields: nat)

  type Platform = l: Layout | l.fields <= l.header witness Layout(false, 0, 0)

  /** A platform with 64-bit pointers and signed char. */
  const LP64: Platform := Layout(true, 56, 52)

  datatype Receiver = Receiver(platform: Platform, state: RxState, partial: Option<Partial>, armed: bool)

  /** What a step reports: a frame for recv_over_cb, or a verdict on the frame being sent. */
  datatype Output = Nothing | Delivered(frame: Partial, error: FrameError) | Verdict(error: FrameError)

  function CharValue(charSigned: bool, b: Byte): int {
    if charSigned && ToNat(b) >= 128 then ToNat(b) - 256 else ToNat(b)
  }

  predicate LengthAccepted(b: Byte) {
    MIN_FRAME_SIZE < ToNat(b) < MAX_FRAME_SIZE
  }

  /** The size asked of malloc for a frame of stored length `len`; a negative one has wrapped around to
      more than any malloc grants. */
  function Allocation(p: Platform, len: int): int {
    p.header + len - 3
  }

  /** What of it is left for the payload, which begins behind the whole header. */
  function Room(len: int): nat {
    if len < 3 then 0 else len - 3
  }

  function Ruined(r: Receiver): Receiver {
    r.(state := Broken, partial := None, armed := false)
  }

  /** A type is waited for, without a frame and without a timer. */
  function Refused(r: Receiver): Receiver {
    r.(state := Kind, partial := None, armed := false)
  }

  function Hunting(r: Receiver): Receiver {
    r.(state := Hunt, partial := None, armed := false)
  }

  function RxHunt(r: Receiver, b: Byte): (Receiver, Output) {
    if b == SOF then (r.(state := Length, armed := true), Nothing)
    else if b == ACK then (r, Verdict(SendAcked))
    else if b == NAK then (r, Verdict(SendNaked))
    else if b == CAN then (r, Verdict(SendCancelled))
    else (r, Nothing)
  }

  /** A hunting receiver answers three bytes with a verdict, begins a frame on a fourth, and passes over
      all others. */
  lemma HuntAnswers(r: Receiver, b: Byte)
    ensures var (r1, out) := RxHunt(r, b);
            && (out == Verdict(SendAcked) <==> b == 0x06)
            && (out == Verdict(SendNaked) <==> b == 0x15)
            && (out == Verdict(SendCancelled) <==> b == 0x18)
            && (b !in {0x06, 0x15, 0x18} ==> out == Nothing)
            && r1 == if b == 0x01 then r.(state := Length, armed := true) else r
  {
  }

  function RxLength(r: Receiver, b: Byte): Receiver {
    if !LengthAccepted(b) then r.(state := Hunt, armed := false)
    else
      var len := CharValue(r.platform.charSigned, b);
      if Allocation(r.platform, len) < 0 then Refused(r)
      else if Allocation(r.platform, len) < r.platform.fields then Ruined(r)
      else r.(state := Kind, partial := Some(Partial(len, 0, 0, [])), armed := true)
  }

  function RxKind(r: Receiver, p: Partial, b: Byte): (Receiver, Output) {
    if b == REQUEST || b == RESPONSE then
      (r.(state := Command, partial := Some(p.(kind := b)), armed := true), Nothing)
    else (Hunting(r), Delivered(p, RecvTimedOut))
  }

  /** After the command byte or a payload byte. */
  function RxStored(r: Receiver, p: Partial): Receiver {
    r.(state := if p.Full() then Checksum else Data, partial := Some(p), armed := true)
  }

  function RxData(r: Receiver, p: Partial, b: Byte): Receiver {
    if |p.payload| < Room(p.len) then RxStored(r, p.(payload := p.payload + [b])) else Ruined(r)
  }

  function RxChecksum(r: Receiver, p: Partial, b: Byte): (Receiver, Output) {
    (Hunting(r), Delivered(p, if b == Sum(p.len, p.kind, p.cmd, p.payload) then NoError else RecvChecksum))
  }

  /** frame_receive_step on one byte. */
  function RxStep(r: Receiver, b: Byte): (Receiver, Output)
    requires RxConsistent(r)
  {
    match r.state
    case Hunt => RxHunt(r, b)
    case Length => (RxLength(r, b), Nothing)
    case Kind => if r.partial.None? then (Ruined(r), Nothing) else RxKind(r, r.partial.value, b)
    case Command => (RxStored(r, r.partial.value.(cmd := b)), Nothing)
    case Data => (RxData(r, r.partial.value, b), Nothing)
    case Checksum => RxChecksum(r, r.partial.value, b)
    case Broken => (r, Nothing)
  }

  /** frame_receive_timer_callback, if the timer runs. */
  function RxExpire(r: Receiver): (Receiver, Output) {
    if !r.armed then (r, Nothing)
    else (Hunting(r), if r.partial.Some? then Delivered(r.partial.value, RecvTimedOut) else Nothing)
  }

  /** A partial frame exists exactly in states Kind to Checksum, the timer runs exactly when the receiver
      is not hunting, and what is stored of the frame lies within what was allocated for it. */
  ghost predicate Sane(r: Receiver) {
    && !r.state.Broken?
    && r.armed == !r.state.Hunt?
    && r.partial.Some? == (r.state.Kind? || r.state.Command? || r.state.Data? || r.state.Checksum?)
    && (r.partial.Some? ==>
          var p := r.partial.value;
          && Allocation(r.platform, p.len) >= r.platform.fields && |p.payload| <= Room(p.len)
          && (r.state.Kind? || r.state.Command? ==> p.payload == [])
          && (r.state.Data? && p.len >= 3 ==> |p.payload| < p.len - 3)
          && (r.state.Checksum? ==> p.Full()))
  }

  /** What holds in every run. */
  ghost predicate RxConsistent(r: Receiver) {
    Sane(r) || r == Refused(r) || r == Ruined(r)
  }

  datatype RxEvent = Arrive(b: Byte) | Expire

  function RxHandle(r: Receiver, e: RxEvent): (Receiver, Output)
    requires RxConsistent(r)
  {
    match e
    case Arrive(b) => RxStep(r, b)
    case Expire => RxExpire(r)
  }

  /** The events that break the invariant: a length byte for which too little is allocated to hold the
      header, and the first payload byte of a frame for which nothing but the header was allocated. */
  predicate Breaks(r: Receiver, e: RxEvent) {
    e.Arrive? &&
    (if r.state.Length? then
       LengthAccepted(e.b) && Allocation(r.platform, CharValue(r.platform.charSigned, e.b)) < r.platform.fields
     else r.state.Data? && r.partial.Some? && r.partial.value.len < 3)
  }

  /** Over every byte and timeout the invariant holds on, unless the event breaks it. */
  lemma RxKeeps(r: Receiver, e: RxEvent)
    requires RxConsistent(r)
    ensures RxConsistent(RxHandle(r, e).0) && RxHandle(r, e).0.platform == r.platform
    ensures Sane(r) ==> (Sane(RxHandle(r, e).0) <==> !Breaks(r, e))
    ensures !Sane(r) ==> !Sane(RxHandle(r, e).0) && RxHandle(r, e).1.Nothing?
  {
    hide Sum, ToNat;
  }

  /** The receiver over any sequence of bytes and timeouts, and what it reports. */
  function RxRun(r: Receiver, events: seq<RxEvent>): (p: (Receiver, seq<Output>))
    requires RxConsistent(r)
    ensures RxConsistent(p.0) && p.0.platform == r.platform
    decreases |events|
  {
    if events == [] then (r, [])
    else
      RxKeeps(r, events[0]);
      var (r1, out) := RxHandle(r, events[0]);
      var (r2, outs) := RxRun(r1, events[1..]);
      (r2, if out.Nothing? then outs else [out] + outs)
  }

  /** A frame that announced less than 3 is never completed: nothing is reported of it, and its first
      payload byte is stored outside its memory. */
  lemma ShortFrameNeverEnds(r: Receiver, bytes: seq<Byte>)
    requires RxConsistent(r) && r.state.Data? && r.partial.value.len < 3
    ensures RxBytes(r, bytes) == (if bytes == [] then r else Ruined(r), [])
  {
    if bytes == [] {
      RxNoBytes(r);
    } else {
      RxOneByte(r, bytes[0], bytes[1..]);
      assert bytes == [bytes[0]] + bytes[1..];
      BrokenStays(Ruined(r), bytes[1..]);
    }
  }

  lemma {:induction false} BrokenStays(r: Receiver, bytes: seq<Byte>)
    requires r == Ruined(r)
    ensures RxBytes(r, bytes) == (r, [])
    decreases |bytes|
  {
    hide RxBytes;
    if bytes == [] {
      RxNoBytes(r);
    } else {
      RxOneByte(r, bytes[0], bytes[1..]);
      assert bytes == [bytes[0]] + bytes[1..];
      BrokenStays(r, bytes[1..]);
    }
  }

  function Arrivals(bytes: seq<Byte>): (events: seq<RxEvent>)
    ensures |events| == |bytes| && forall i :: 0 <= i < |bytes| ==> events[i] == Arrive(bytes[i])
    decreases |bytes|
  {
    if bytes == [] then [] else [Arrive(bytes[0])] + Arrivals(bytes[1..])
  }

  lemma {:induction false} RxRunAppend(r: Receiver, a: seq<RxEvent>, b: seq<RxEvent>)
    requires RxConsistent(r)
    ensures var (r1, out1) := RxRun(r, a); var (r2, out2) := RxRun(r1, b);
            RxRun(r, a + b) == (r2, out1 + out2)
    decreases |a|
  {
    hide RxHandle, RxConsistent;
    if a == [] {
      assert a + b == b && [] + RxRun(r, b).1 == RxRun(r, b).1;
    } else {
      assert (a + b)[1..] == a[1..] + b;
      RxKeeps(r, a[0]);
      var (r1, out) := RxHandle(r, a[0]);
      RxRunAppend(r1, a[1..], b);
      var o1 := RxRun(r1, a[1..]).1;
      var o2 := RxRun(RxRun(r1, a[1..]).0, b).1;
      assert [out] + o1 + o2 == [out] + (o1 + o2);
    }
  }

  lemma {:induction false} ArrivalsAppend(a: seq<Byte>, b: seq<Byte>)
    ensures Arrivals(a + b) == Arrivals(a) + Arrivals(b)
    decreases |a|
  {
    if a == [] {
      assert a + b == b;
    } else {
      assert (a + b)[1..] == a[1..] + b;
      ArrivalsAppend(a[1..], b);
    }
  }

  /** The receiver over bytes that all arrive in time. */
  function RxBytes(r: Receiver, bytes: seq<Byte>): (p: (Receiver, seq<Output>))
    requires RxConsistent(r)
    ensures RxConsistent(p.0) && p.0.platform == r.platform
  {
    RxRun(r, Arrivals(bytes))
  }

  lemma RxBytesAppend(r: Receiver, a: seq<Byte>, b: seq<Byte>)
    requires RxConsistent(r)
    ensures var (r1, out1) := RxBytes(r, a); var (r2, out2) := RxBytes(r1, b);
            RxBytes(r, a + b) == (r2, out1 + out2)
  {
    hide RxRun, RxConsistent, Arrivals;
    ArrivalsAppend(a, b);
    RxRunAppend(r, Arrivals(a), Arrivals(b));
  }

  lemma RxOneByte(r: Receiver, b: Byte, rest: seq<Byte>)
    requires RxConsistent(r) && RxStep(r, b).1.Nothing?
    ensures RxConsistent(RxStep(r, b).0)
    ensures RxBytes(r, [b] + rest) == RxBytes(RxStep(r, b).0, rest)
  {
    hide RxStep, RxConsistent;
    RxKeeps(r, Arrive(b));
    assert ([b] + rest)[1..] == rest;
    assert Arrivals([b] + rest)[1..] == Arrivals(rest);
  }

  lemma RxLastByte(r: Receiver, b: Byte)
    requires RxConsistent(r) && !RxStep(r, b).1.Nothing?
    ensures RxBytes(r, [b]) == (RxStep(r, b).0, [RxStep(r, b).1])
  {
    RxKeeps(r, Arrive(b));
    var (r1, out) := RxStep(r, b);
    var nothing: seq<Output> := [];
    assert Arrivals([b]) == [Arrive(b)] && [Arrive(b)][1..] == [];
    assert RxRun(r1, []) == (r1, nothing);
    assert [out] + nothing == [out];
  }

  lemma RxNoBytes(r: Receiver)
    requires RxConsistent(r)
    ensures RxBytes(r, []) == (r, [])
  {
  }

  /** The receiver when only the checksum of a frame is missing. */
  function Loaded(r: Receiver, kind: Byte, cmd: Byte, payload: seq<Byte>): Receiver {
    Receiver(r.platform, Checksum, Some(Partial(Announced(payload), kind, cmd, payload)), true)
  }

  /** The lengths that are accepted and kept as they are. */
  predicate Carried(charSigned: bool, n: nat) {
    3 <= n < (if charSigned then 128 else MAX_FRAME_SIZE)
  }

  lemma LengthByte(charSigned: bool, n: nat)
    requires Carried(charSigned, n)
    ensures LengthAccepted(LowByte(n)) && CharValue(charSigned, LowByte(n)) == n
  {
    hide ToNat, ToByte;
    assert ToNat(ToByte(n)) == n;
  }

  lemma {:induction false} RxPayload(r: Receiver, p: Partial, payload: seq<Byte>)
    requires payload != []
    requires r == Receiver(r.platform, Data, Some(p), true) && |p.payload| + |payload| == p.len - 3
    requires Sane(r)
    ensures RxBytes(r, payload)
         == (Receiver(r.platform, Checksum, Some(p.(payload := p.payload + payload)), true), [])
    decreases |payload|
  {
    hide RxBytes;
    var p1 := p.(payload := p.payload + [payload[0]]);
    var r1 := RxStored(r, p1);
    assert payload == [payload[0]] + payload[1..];
    RxOneByte(r, payload[0], payload[1..]);
    if |payload| == 1 {
      RxNoBytes(r1);
      assert payload[1..] == [] && p.payload + payload == p1.payload;
    } else {
      RxPayload(r1, p1, payload[1..]);
      assert p1.payload + payload[1..] == p.payload + payload;
    }
  }

  /** Up to its last byte a frame is taken in silently. */
  lemma FrameLoads(r: Receiver, kind: Byte, cmd: Byte, payload: seq<Byte>)
    requires RxConsistent(r) && r.state.Hunt? && kind in {REQUEST, RESPONSE}
    requires Carried(r.platform.charSigned, Announced(payload))
    ensures RxBytes(r, [SOF] + Body(Announced(payload), kind, cmd, payload)) == (Loaded(r, kind, cmd, payload), [])
  {
    hide RxBytes, LowByte, ToNat;
    var n := Announced(payload);
    LengthByte(r.platform.charSigned, n);
    var r1 := r.(state := Length, armed := true);
    RxOneByte(r, SOF, Body(n, kind, cmd, payload));
    var r2 := RxLength(r1, LowByte(n));
    assert Body(n, kind, cmd, payload) == [LowByte(n)] + ([kind] + ([cmd] + payload));
    RxOneByte(r1, LowByte(n), [kind] + ([cmd] + payload));
    var r3 := RxKind(r2, r2.partial.value, kind).0;
    RxOneByte(r2, kind, [cmd] + payload);
    var r4 := RxStored(r3, r3.partial.value.(cmd := cmd));
    RxOneByte(r3, cmd, payload);
    if payload == [] {
      RxNoBytes(r4);
    } else {
      RxPayload(r4, r4.partial.value, payload);
      assert [] + payload == payload;
    }
  }

  /** Main result: a hunting receiver reports a frame exactly at its last byte, with the fields
      sent, and without error if and only if its checksum byte is right. */
  lemma FrameIsReceivedExactly(r: Receiver, kind: Byte, cmd: Byte, payload: seq<Byte>, check: Byte)
    requires RxConsistent(r) && r.state.Hunt? && kind in {REQUEST, RESPONSE}
    requires Carried(r.platform.charSigned, Announced(payload))
    ensures var n := Announced(payload);
            RxBytes(r, Raw(kind, cmd, payload, check)) ==
            (r, [Delivered(Partial(n, kind, cmd, payload),
                           if check == Sum(n, kind, cmd, payload) then NoError else RecvChecksum)])
    ensures forall k :: 0 <= k < |Raw(kind, cmd, payload, check)| ==>
                          RxBytes(r, Raw(kind, cmd, payload, check)[..k]).1 == []
  {
    hide RxBytes, Body, Sum;
    var raw := Raw(kind, cmd, payload, check);
    var head := [SOF] + Body(Announced(payload), kind, cmd, payload);
    var l := Loaded(r, kind, cmd, payload);
    FrameLoads(r, kind, cmd, payload);
    RxBytesAppend(r, head, [check]);
    RxLastByte(l, check);
    assert Hunting(l) == r && raw == head + [check];
    var nothing: seq<Output> := [];
    assert nothing + [RxStep(l, check).1] == [RxStep(l, check).1];
    forall k | 0 <= k < |raw|
      ensures RxBytes(r, raw[..k]).1 == []
    {
      assert raw[..k] == head[..k] && head[..k] + head[k..] == head;
      RxBytesAppend(r, head[..k], head[k..]);
    }
  }

  /** The receiver behind SOF and an accepted length byte. */
  function Opened(r: Receiver, b: Byte): Receiver {
    RxLength(r.(state := Length, armed := true), b)
  }

  lemma FrameOpens(r: Receiver, b: Byte, rest: seq<Byte>)
    requires RxConsistent(r) && r.state.Hunt?
    ensures RxConsistent(Opened(r, b)) && RxBytes(r, [SOF, b] + rest) == RxBytes(Opened(r, b), rest)
  {
    hide RxBytes, ToNat;
    assert [SOF, b] + rest == [SOF] + ([b] + rest);
    RxOneByte(r, SOF, [b] + rest);
    RxOneByte(r.(state := Length, armed := true), b, rest);
  }

  /** As long as nothing is reported, the frame being taken in stays within its memory. */
  lemma {:induction false} StaysInFrame(r: Receiver, bytes: seq<Byte>)
    requires Sane(r) && r.partial.Some? && r.partial.value.len >= 3
    requires RxBytes(r, bytes).1 == []
    ensures Sane(RxBytes(r, bytes).0)
    decreases |bytes|
  {
    hide RxBytes, Sum;
    if bytes == [] {
      RxNoBytes(r);
    } else {
      assert bytes == [bytes[0]] + bytes[1..];
      var (r1, out) := RxStep(r, bytes[0]);
      if out.Nothing? {
        RxOneByte(r, bytes[0], bytes[1..]);
        StaysInFrame(r1, bytes[1..]);
      } else {
        RxReports(r, bytes);
      }
    }
  }

  lemma RxReports(r: Receiver, bytes: seq<Byte>)
    requires RxConsistent(r) && bytes != [] && !RxStep(r, bytes[0]).1.Nothing?
    ensures RxBytes(r, bytes).1 != []
  {
  }

  /** Behind an accepted length byte of which less than 3 was stored, the receiver is broken by the first
      payload byte at the latest, with nothing reported. */
  lemma ShortFrameBreaks(r: Receiver, b: Byte, kind: Byte, cmd: Byte, rest: seq<Byte>)
    requires RxConsistent(r) && r.state.Hunt? && kind in {REQUEST, RESPONSE} && rest != []
    requires LengthAccepted(b) && CharValue(r.platform.charSigned, b) < 3
    ensures RxBytes(r, [SOF, b] + ([kind, cmd] + rest)) == (Ruined(r), [])
  {
    hide RxBytes, ToNat;
    FrameOpens(r, b, [kind, cmd] + rest);
    var o := Opened(r, b);
    assert [kind, cmd] + rest == [kind] + ([cmd] + rest);
    RxOneByte(o, kind, [cmd] + rest);
    var o1 := RxStep(o, kind).0;
    if o1.state.Broken? {
      BrokenStays(o1, [cmd] + rest);
    } else {
      RxOneByte(o1, cmd, rest);
      ShortFrameNeverEnds(RxStep(o1, cmd).0, rest);
    }
  }

  /** Main result: behind an accepted length byte everything written lies within what was allocated,
      whatever bytes follow until something is reported, if and only if at least 3 was stored of it. */
  lemma PayloadFitsExactly(r: Receiver, b: Byte)
    requires Sane(r) && r.state.Hunt? && LengthAccepted(b)
    ensures (forall bytes: seq<Byte> | RxBytes(r, [SOF, b] + bytes).1 == [] :: Sane(RxBytes(r, [SOF, b] + bytes).0))
            <==> CharValue(r.platform.charSigned, b) >= 3
  {
    hide RxBytes, ToNat;
    if CharValue(r.platform.charSigned, b) >= 3 {
      forall bytes: seq<Byte> | RxBytes(r, [SOF, b] + bytes).1 == []
        ensures Sane(RxBytes(r, [SOF, b] + bytes).0)
      {
        FrameOpens(r, b, bytes);
        StaysInFrame(Opened(r, b), bytes);
      }
    } else {
      ShortFrameBreaks(r, b, REQUEST, 0, [0]);
      assert !Sane(RxBytes(r, [SOF, b] + ([REQUEST, 0] + [0])).0);
    }
  }

  /** The length bytes from 2 to 232 are accepted, and no others. */
  lemma LengthsAccepted(r: Receiver, b: Byte)
    requires Sane(r) && r.state.Hunt?
    ensures RxBytes(r, [0x01, b]).0 == r <==> !(2 <= ToNat(b) <= 232)
  {
    hide RxBytes, ToNat;
    FrameOpens(r, b, []);
    RxNoBytes(Opened(r, b));
    assert [SOF, b] + [] == [0x01, b];
  }

  /** A frame of any other type is given up at its type byte and reported late. */
  lemma OtherTypeIsLate(r: Receiver, b: Byte, kind: Byte)
    requires Sane(r) && r.state.Hunt? && LengthAccepted(b) && kind !in {0x00, 0x01}
    requires CharValue(r.platform.charSigned, b) >= 3
    ensures RxBytes(r, [SOF, b] + [kind]) ==
            (r, [Delivered(Partial(CharValue(r.platform.charSigned, b), 0x00, 0x00, []), RecvTimedOut)])
  {
    hide RxBytes, ToNat;
    FrameOpens(r, b, [kind]);
    RxLastByte(Opened(r, b), kind);
  }

  /** A frame that stops coming is reported late with what has come of it, the rest zero, and the receiver
      hunts again. */
  lemma LateExactly(r: Receiver, b: Byte, kind: Byte, cmd: Byte, part: seq<Byte>)
    requires Sane(r) && r.state.Hunt? && LengthAccepted(b) && kind in {REQUEST, RESPONSE}
    requires |part| <= CharValue(r.platform.charSigned, b) - 3
    ensures var len := CharValue(r.platform.charSigned, b);
            && RxExpire(RxBytes(r, [SOF]).0) == (r, Nothing)
            && RxExpire(RxBytes(r, [SOF, b]).0) == (r, Delivered(Partial(len, 0x00, 0x00, []), RecvTimedOut))
            && RxExpire(RxBytes(r, [SOF, b] + [kind]).0) == (r, Delivered(Partial(len, kind, 0x00, []), RecvTimedOut))
            && RxExpire(RxBytes(r, [SOF, b] + ([kind, cmd] + part)).0) ==
               (r, Delivered(Partial(len, kind, cmd, part), RecvTimedOut))
  {
    hide RxBytes, ToNat;
    var len := CharValue(r.platform.charSigned, b);
    assert [SOF] == [SOF] + [];
    RxOneByte(r, SOF, []);
    RxNoBytes(r.(state := Length, armed := true));
    var o := Opened(r, b);
    FrameOpens(r, b, []);
    assert [SOF, b] + [] == [SOF, b];
    RxNoBytes(o);
    FrameOpens(r, b, [kind]);
    var o1 := RxKind(o, o.partial.value, kind).0;
    RxOneByte(o, kind, []);
    assert [kind] + [] == [kind];
    RxNoBytes(o1);
    FrameOpens(r, b, [kind, cmd] + part);
    assert [kind, cmd] + part == [kind] + ([cmd] + part);
    RxOneByte(o, kind, [cmd] + part);
    RxOneByte(o1, cmd, part);
    var p := Partial(len, kind, cmd, []);
    PartTaken(RxStored(o1, p), p, part);
    assert [] + part == part;
  }

  lemma {:induction false} PartTaken(r: Receiver, p: Partial, part: seq<Byte>)
    requires Sane(r) && r == RxStored(r, p) && |p.payload| + |part| <= p.len - 3
    ensures RxBytes(r, part) == (RxStored(r, p.(payload := p.payload + part)), [])
    decreases |part|
  {
    hide RxBytes, ToNat;
    if part == [] {
      RxNoBytes(r);
      assert p.payload + part == p.payload;
    } else {
      assert part == [part[0]] + part[1..];
      RxOneByte(r, part[0], part[1..]);
      var p1 := p.(payload := p.payload + [part[0]]);
      PartTaken(RxStored(r, p1), p1, part[1..]);
      assert p1.payload + part[1..] == p.payload + part;
    }
  }

  /** What an accepted length byte does, by the size that is asked of malloc for it. */
  lemma LengthExactly(r: Receiver, b: Byte)
    requires Sane(r) && r.state.Hunt? && LengthAccepted(b)
    ensures var size := Allocation(r.platform, CharValue(r.platform.charSigned, b));
            var o := RxBytes(r, [SOF, b]).0;
            && (o == Refused(r) <==> size < 0)
            && (o == Ruined(r) <==> 0 <= size < r.platform.fields)
            && (Sane(o) <==> size >= r.platform.fields)
  {
    hide RxBytes, ToNat;
    FrameOpens(r, b, []);
    RxNoBytes(Opened(r, b));
    assert [SOF, b] + [] == [SOF, b];
  }

  /** With 64-bit pointers and signed char: from 128 to 202 there is no frame and no timer, and the next
      byte is written through NULL; from 203 to 232 the header is larger than its block. */
  lemma LengthsOnLp64(b: Byte)
    requires LengthAccepted(b)
    ensures var r := Receiver(LP64, Hunt, None, false);
            var o := RxBytes(r, [SOF, b]).0;
            && (o == Refused(r) <==> 128 <= ToNat(b) <= 202)
            && (o == Ruined(r) <==> 203 <= ToNat(b) <= 232)
            && (Sane(o) <==> ToNat(b) < 128)
  {
    hide RxBytes, ToNat;
    LengthExactly(Receiver(LP64, Hunt, None, false), b);
  }

  /** The first two bytes of such a frame, and a third. */
  lemma WrappedAllocation(b: Byte)
    ensures var r := Receiver(LP64, Hunt, None, false);
            && RxBytes(r, [SOF, 0x80]).0 == Receiver(LP64, Kind, None, false)
            && RxBytes(r, [SOF, 0x80] + [b]) == (Ruined(r), [])
  {
    hide RxBytes;
    var r := Receiver(LP64, Hunt, None, false);
    LengthsOnLp64(0x80);
    FrameOpens(r, 0x80, [b]);
    RxOneByte(Opened(r, 0x80), b, []);
    RxNoBytes(Ruined(r));
    assert [b] + [] == [b];
  }

  /** Main result: of the frames whose length byte is accepted, a hunting receiver reports those and
      only those whose length it carries.  The others break it in silence. */
  lemma FrameIsReportedExactly(
    r: Receiver, kind: Byte, cmd: Byte, payload: seq<Byte>, check: Byte, more: seq<Byte>)
    requires RxConsistent(r) && r.state.Hunt? && kind in {REQUEST, RESPONSE}
    requires Announced(payload) < 256 && LengthAccepted(LowByte(Announced(payload)))
    ensures RxBytes(r, Raw(kind, cmd, payload, check) + more).1 != []
            <==> Carried(r.platform.charSigned, Announced(payload))
    ensures RxBytes(r, Raw(kind, cmd, payload, check)) == (Ruined(r), [])
            <==> !Carried(r.platform.charSigned, Announced(payload))
  {
    hide RxBytes, Sum, Raw;
    var n := Announced(payload);
    var raw := Raw(kind, cmd, payload, check);
    if Carried(r.platform.charSigned, n) {
      FrameIsReceivedExactly(r, kind, cmd, payload, check);
      RxBytesAppend(r, raw, more);
    } else {
      WideLengthIsNegative(n);
      SilentFrame(r, kind, cmd, payload, check, []);
      SilentFrame(r, kind, cmd, payload, check, more);
      assert raw + [] == raw;
    }
  }

  lemma WideLengthIsNegative(n: nat)
    requires n < 256
    ensures ToNat(LowByte(n)) == n && (n >= 128 ==> CharValue(true, LowByte(n)) < 0)
  {
    hide ToNat, ToByte;
  }

  lemma SilentFrame(r: Receiver, kind: Byte, cmd: Byte, payload: seq<Byte>, check: Byte, more: seq<Byte>)
    requires RxConsistent(r) && r.state.Hunt? && kind in {REQUEST, RESPONSE}
    requires var b := LowByte(Announced(payload)); LengthAccepted(b) && CharValue(r.platform.charSigned, b) < 3
    ensures RxBytes(r, Raw(kind, cmd, payload, check) + more) == (Ruined(r), [])
  {
    hide RxBytes, LowByte;
    var b := LowByte(Announced(payload));
    var rest := payload + [check] + more;
    assert Raw(kind, cmd, payload, check) + more == [SOF, b] + ([kind, cmd] + rest);
    ShortFrameBreaks(r, b, kind, cmd, rest);
  }

  /** What is reported as received was announced with a length that is carried. */
  ghost predicate Reportable(charSigned: bool, out: Output) {
    out.Delivered? && out.error in {NoError, RecvChecksum} ==>
      && Carried(charSigned, Announced(out.frame.payload)) && out.frame.len == Announced(out.frame.payload)
      && out.frame.kind in {REQUEST, RESPONSE}
  }

  /** The frame being received came from an accepted length byte. */
  ghost predicate RxAccepted(r: Receiver) {
    r.partial.Some? ==>
      && r.partial.value.len < (if r.platform.charSigned then 128 else MAX_FRAME_SIZE)
      && (!r.state.Kind? ==> r.partial.value.kind in {REQUEST, RESPONSE})
  }

  lemma StepReportable(r: Receiver, e: RxEvent)
    requires RxConsistent(r) && RxAccepted(r)
    ensures RxAccepted(RxHandle(r, e).0) && Reportable(r.platform.charSigned, RxHandle(r, e).1)
  {
    hide Sum, ToNat;
  }

  lemma {:induction false} RunReportable(r: Receiver, events: seq<RxEvent>)
    requires RxConsistent(r) && RxAccepted(r)
    ensures forall out :: out in RxRun(r, events).1 ==> Reportable(r.platform.charSigned, out)
    decreases |events|
  {
    hide RxHandle, RxConsistent, RxAccepted, Reportable;
    if events != [] {
      RxKeeps(r, events[0]);
      StepReportable(r, events[0]);
      RunReportable(RxHandle(r, events[0]).0, events[1..]);
    }
  }

  /** Main result: for every payload and type, a hunting receiver reports the frame with the fields
      sent if and only if the type is one of the two and the length is carried; payloads whose length
      does not fit the length byte are no exception. */
  lemma FrameComesThroughExactly(r: Receiver, kind: Byte, cmd: Byte, payload: seq<Byte>, check: Byte)
    requires RxConsistent(r) && r.state.Hunt?
    ensures var n := Announced(payload);
            var e := if check == Sum(n, kind, cmd, payload) then NoError else RecvChecksum;
            Delivered(Partial(n, kind, cmd, payload), e) in RxBytes(r, Raw(kind, cmd, payload, check)).1
            <==> Carried(r.platform.charSigned, n) && kind in {REQUEST, RESPONSE}
  {
    hide RxBytes, Sum, Raw;
    if Carried(r.platform.charSigned, Announced(payload)) && kind in {REQUEST, RESPONSE} {
      FrameIsReceivedExactly(r, kind, cmd, payload, check);
    } else {
      BytesReportable(r, Raw(kind, cmd, payload, check));
    }
  }

  lemma BytesReportable(r: Receiver, bytes: seq<Byte>)
    requires RxConsistent(r) && RxAccepted(r)
    ensures forall out :: out in RxBytes(r, bytes).1 ==> Reportable(r.platform.charSigned, out)
  {
    RunReportable(r, Arrivals(bytes));
  }

  /** Changing the command byte, one payload byte or the checksum byte of a good frame makes the
      receiver report a checksum error. */
  lemma DamageIsReported(r: Receiver, kind: Byte, cmd: Byte, payload: seq<Byte>, i: nat, b: Byte)
    requires RxConsistent(r) && r.state.Hunt? && kind in {REQUEST, RESPONSE}
    requires Carried(r.platform.charSigned, Announced(payload))
    requires 3 <= i < |Packet(kind, cmd, payload)| && b != Packet(kind, cmd, payload)[i]
    ensures exists d :: RxBytes(r, Packet(kind, cmd, payload)[i := b]) == (r, [Delivered(d, RecvChecksum)])
  {
    hide RxBytes, XorAll, LowByte;
    var n := Announced(payload);
    var sum := Sum(n, kind, cmd, payload);
    var packet := Packet(kind, cmd, payload);
    SingleChange(0xFF, Body(n, kind, cmd, payload), if i < n + 1 then i - 1 else 0, b);
    if i == 3 {
      assert packet[i := b] == Raw(kind, b, payload, sum);
      assert Body(n, kind, cmd, payload)[2 := b] == Body(n, kind, b, payload);
      FrameIsReceivedExactly(r, kind, b, payload, sum);
    } else if i < n + 1 {
      assert packet[i := b] == Raw(kind, cmd, payload[i - 4 := b], sum);
      assert Body(n, kind, cmd, payload)[i - 1 := b] == Body(n, kind, cmd, payload[i - 4 := b]);
      FrameIsReceivedExactly(r, kind, cmd, payload[i - 4 := b], sum);
    } else {
      assert packet[i := b] == Raw(kind, cmd, payload, b);
      FrameIsReceivedExactly(r, kind, cmd, payload, b);
    }
  }
}
